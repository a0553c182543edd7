/**
 * Fixed-width part of the binary primitive codec (class `Binary`): the
 * sign/unsign helpers, the length-checked `unpack`, and the encoders and
 * decoders of booleans, bytes, 16-bit shorts, 24-bit triads, 32-bit ints and
 * 64-bit longs in both byte orders, with the byte-order flips built on them.
 *
 * Each decoder's contract says when it throws and what range its result
 * lies in; the lemmas after it relate it to its encoder in both directions
 * (decode after encode keeps the bits the encoding holds, encode after a
 * successful decode gives back the bytes that were read).
 */
module Binary {
  import opened Results
  import opened Php

  /** The `BinaryDataException`s the decoders throw, one constructor per message. */
  datatype BinaryDataError =
    | NotEnoughBytes(need: nat, have: nat)  // "Not enough bytes: need N, have M"
    | ExpectedLengthOne                     // "Expected a string of length 1"
    | NoBytesLeft                           // "No bytes left in buffer"
    | DidNotTerminate(maxBytes: nat)        // "VarInt/VarLong did not terminate after N bytes!"

  const SIZEOF_SHORT: nat := 2
  const SIZEOF_INT: nat := 4
  const SIZEOF_LONG: nat := 8

  // ---------------------------------------------------------------------------
  // Sign and unsign helpers
  // ---------------------------------------------------------------------------

  /**
   * `$value << 56 >> 56`: the low 8 bits, sign-extended to 64. The arithmetic
   * `>>` is written with Dafny's logical one through the sign fill `m`.
   */
  function SignByte(value: Int): (r: Int)
    ensures FitsSigned8(r)
    ensures (r ^ value) & 0xff == 0
  {
    var x := value << 56;
    var m: Int := if x < SIGN_BIT then 0 else 0xFFFF_FFFF_FFFF_FFFF;
    ((x ^ m) >> 56) ^ m
  }

  /** `$value & 0xff`. */
  function UnsignByte(value: Int): (r: Int)
    ensures r <= 0xff
    ensures (r ^ value) & 0xff == 0
  {
    value & 0xff
  }

  /** `$value << 48 >> 48`: the low 16 bits, sign-extended to 64. */
  function SignShort(value: Int): (r: Int)
    ensures FitsSigned16(r)
    ensures (r ^ value) & 0xffff == 0
  {
    var x := value << 48;
    var m: Int := if x < SIGN_BIT then 0 else 0xFFFF_FFFF_FFFF_FFFF;
    ((x ^ m) >> 48) ^ m
  }

  /** `$value & 0xffff`. */
  function UnsignShort(value: Int): (r: Int)
    ensures r <= 0xffff
    ensures (r ^ value) & 0xffff == 0
  {
    value & 0xffff
  }

  /** `$value << 32 >> 32`: the low 32 bits, sign-extended to 64. */
  function SignInt(value: Int): (r: Int)
    ensures FitsSigned32(r)
    ensures (r ^ value) & 0xffff_ffff == 0
  {
    var x := value << 32;
    var m: Int := if x < SIGN_BIT then 0 else 0xFFFF_FFFF_FFFF_FFFF;
    ((x ^ m) >> 32) ^ m
  }

  /** `$value & 0xffffffff`. */
  function UnsignInt(value: Int): (r: Int)
    ensures r <= 0xffff_ffff
    ensures (r ^ value) & 0xffff_ffff == 0
  {
    value & 0xffff_ffff
  }

  /** The two contract clauses of each sign helper leave it no other result. */
  lemma SignByteIsUnique(value: Int, r: Int)
    requires FitsSigned8(r) && (r ^ value) & 0xff == 0
    ensures r == SignByte(value)
  {
  }

  lemma SignShortIsUnique(value: Int, r: Int)
    requires FitsSigned16(r) && (r ^ value) & 0xffff == 0
    ensures r == SignShort(value)
  {
  }

  lemma SignIntIsUnique(value: Int, r: Int)
    requires FitsSigned32(r) && (r ^ value) & 0xffff_ffff == 0
    ensures r == SignInt(value)
  {
  }

  /**
   * Unsigning a signed view gives the masked pattern, and signing depends
   * only on the bits the unsign helper keeps.
   */
  lemma SignUnsignByte(value: Int)
    ensures UnsignByte(SignByte(value)) == value & 0xff
    ensures SignByte(UnsignByte(value)) == SignByte(value)
  {
  }

  lemma SignUnsignShort(value: Int)
    ensures UnsignShort(SignShort(value)) == value & 0xffff
    ensures SignShort(UnsignShort(value)) == SignShort(value)
  {
  }

  lemma SignUnsignInt(value: Int)
    ensures UnsignInt(SignInt(value)) == value & 0xffff_ffff
    ensures SignInt(UnsignInt(value)) == SignInt(value)
  {
  }

  /** A value already in the signed range is its own signed view. */
  lemma SignByteIdempotent(value: Int)
    requires FitsSigned8(value)
    ensures SignByte(value) == value
  {
  }

  lemma SignShortIdempotent(value: Int)
    requires FitsSigned16(value)
    ensures SignShort(value) == value
  {
  }

  lemma SignIntIdempotent(value: Int)
    requires FitsSigned32(value)
    ensures SignInt(value) == value
  {
  }

  // ---------------------------------------------------------------------------
  // pack / unpack for the six format codes the codec uses
  // ---------------------------------------------------------------------------

  /** The `pack`/`unpack` format codes the codec uses. */
  datatype PackCode =
    | BigEndian16     // "n"
    | LittleEndian16  // "v"
    | BigEndian32     // "N"
    | LittleEndian32  // "V"
    | BigEndian64     // "J"
    | LittleEndian64  // "P"

  function Size(code: PackCode): nat {
    match code
    case BigEndian16 | LittleEndian16 => 2
    case BigEndian32 | LittleEndian32 => 4
    case BigEndian64 | LittleEndian64 => 8
  }

  /** `pack("n", $v)`: the low 16 bits, most significant byte first. */
  function PackN(v: Int): (s: Bytes)
    ensures |s| == 2
  {
    [Chr(v >> 8), Chr(v)]
  }

  /** `unpack("n", $s)[1]`: the first two bytes, most significant first. */
  function UnpackN(s: Bytes): (v: Int)
    requires |s| >= 2
    ensures v <= 0xffff
  {
    (Ord(s[0]) << 8) | Ord(s[1])
  }

  /** `pack("v", $v)`: the low 16 bits, least significant byte first. */
  function PackV16(v: Int): (s: Bytes)
    ensures |s| == 2
  {
    [Chr(v), Chr(v >> 8)]
  }

  function UnpackV16(s: Bytes): (v: Int)
    requires |s| >= 2
    ensures v <= 0xffff
  {
    Ord(s[0]) | (Ord(s[1]) << 8)
  }

  /** `pack("N", $v)`: the low 32 bits, most significant byte first. */
  function PackN32(v: Int): (s: Bytes)
    ensures |s| == 4
  {
    [Chr(v >> 24), Chr(v >> 16), Chr(v >> 8), Chr(v)]
  }

  function UnpackN32(s: Bytes): (v: Int)
    requires |s| >= 4
    ensures v <= 0xffff_ffff
  {
    (Ord(s[0]) << 24) | (Ord(s[1]) << 16) | (Ord(s[2]) << 8) | Ord(s[3])
  }

  /** `pack("V", $v)`: the low 32 bits, least significant byte first. */
  function PackV32(v: Int): (s: Bytes)
    ensures |s| == 4
  {
    [Chr(v), Chr(v >> 8), Chr(v >> 16), Chr(v >> 24)]
  }

  function UnpackV32(s: Bytes): (v: Int)
    requires |s| >= 4
    ensures v <= 0xffff_ffff
  {
    Ord(s[0]) | (Ord(s[1]) << 8) | (Ord(s[2]) << 16) | (Ord(s[3]) << 24)
  }

  /** `pack("J", $v)`: all 64 bits, most significant byte first. */
  function PackJ(v: Int): (s: Bytes)
    ensures |s| == 8
  {
    [Chr(v >> 56), Chr(v >> 48), Chr(v >> 40), Chr(v >> 32),
     Chr(v >> 24), Chr(v >> 16), Chr(v >> 8), Chr(v)]
  }

  function UnpackJ(s: Bytes): Int
    requires |s| >= 8
  {
    (Ord(s[0]) << 56) | (Ord(s[1]) << 48) | (Ord(s[2]) << 40) | (Ord(s[3]) << 32) |
    (Ord(s[4]) << 24) | (Ord(s[5]) << 16) | (Ord(s[6]) << 8) | Ord(s[7])
  }

  /** `pack("P", $v)`: all 64 bits, least significant byte first. */
  function PackP(v: Int): (s: Bytes)
    ensures |s| == 8
  {
    [Chr(v), Chr(v >> 8), Chr(v >> 16), Chr(v >> 24),
     Chr(v >> 32), Chr(v >> 40), Chr(v >> 48), Chr(v >> 56)]
  }

  function UnpackP(s: Bytes): Int
    requires |s| >= 8
  {
    Ord(s[0]) | (Ord(s[1]) << 8) | (Ord(s[2]) << 16) | (Ord(s[3]) << 24) |
    (Ord(s[4]) << 32) | (Ord(s[5]) << 40) | (Ord(s[6]) << 48) | (Ord(s[7]) << 56)
  }

  // Unpacking what was packed gives back the bits the pack writes.

  lemma UnpackPackN(v: Int)
    ensures UnpackN(PackN(v)) == v & 0xffff
  {
  }

  lemma UnpackPackV16(v: Int)
    ensures UnpackV16(PackV16(v)) == v & 0xffff
  {
  }

  lemma UnpackPackN32(v: Int)
    ensures UnpackN32(PackN32(v)) == v & 0xffff_ffff
  {
  }

  lemma UnpackPackV32(v: Int)
    ensures UnpackV32(PackV32(v)) == v & 0xffff_ffff
  {
  }

  lemma UnpackPackJ(v: Int)
    ensures UnpackJ(PackJ(v)) == v
  {
  }

  lemma UnpackPackP(v: Int)
    ensures UnpackP(PackP(v)) == v
  {
  }

  // Packing what was unpacked gives back the bytes that were read.

  lemma PackUnpackN(s: Bytes)
    requires |s| >= 2
    ensures PackN(UnpackN(s)) == s[..2]
  {
  }

  lemma PackUnpackV16(s: Bytes)
    requires |s| >= 2
    ensures PackV16(UnpackV16(s)) == s[..2]
  {
  }

  lemma PackUnpackN32(s: Bytes)
    requires |s| >= 4
    ensures PackN32(UnpackN32(s)) == s[..4]
  {
  }

  lemma PackUnpackV32(s: Bytes)
    requires |s| >= 4
    ensures PackV32(UnpackV32(s)) == s[..4]
  {
  }

  lemma PackUnpackJ(s: Bytes)
    requires |s| >= 8
    ensures PackJ(UnpackJ(s)) == s[..8]
  {
  }

  lemma PackUnpackP(s: Bytes)
    requires |s| >= 8
    ensures PackP(UnpackP(s)) == s[..8]
  {
  }

  // Each 16- and 32-bit pack depends only on the bits it writes.

  lemma PackNMasked(v: Int)
    ensures PackN(v & 0xffff) == PackN(v)
  {
  }

  lemma PackV16Masked(v: Int)
    ensures PackV16(v & 0xffff) == PackV16(v)
  {
  }

  lemma PackN32Masked(v: Int)
    ensures PackN32(v & 0xffff_ffff) == PackN32(v)
  {
  }

  lemma PackV32Masked(v: Int)
    ensures PackV32(v & 0xffff_ffff) == PackV32(v)
  {
  }

  /** `pack($code, $v)`. */
  function Pack(code: PackCode, v: Int): (s: Bytes)
    ensures |s| == Size(code)
  {
    match code
    case BigEndian16 => PackN(v)
    case LittleEndian16 => PackV16(v)
    case BigEndian32 => PackN32(v)
    case LittleEndian32 => PackV32(v)
    case BigEndian64 => PackJ(v)
    case LittleEndian64 => PackP(v)
  }

  /** `unpack($code, $s)[1]` on a long enough string: only the first `Size(code)` bytes are read. */
  function Unpack(code: PackCode, s: Bytes): Int
    requires |s| >= Size(code)
  {
    match code
    case BigEndian16 => UnpackN(s)
    case LittleEndian16 => UnpackV16(s)
    case BigEndian32 => UnpackN32(s)
    case LittleEndian32 => UnpackV32(s)
    case BigEndian64 => UnpackJ(s)
    case LittleEndian64 => UnpackP(s)
  }

  /**
   * `safeUnpack`: a string shorter than `needLength` is refused with both
   * lengths in the message; otherwise the value is unpacked.
   */
  function SafeUnpack(code: PackCode, bytes: Bytes, needLength: nat): (r: Result<Int, BinaryDataError>)
    requires needLength == Size(code)
    ensures r.Failure? <==> |bytes| < needLength
    ensures r.Failure? ==> r.error == NotEnoughBytes(needLength, |bytes|)
    ensures r.Success? ==> r.value == Unpack(code, bytes)
  {
    var haveLength := |bytes|;
    if haveLength < needLength then Failure(NotEnoughBytes(needLength, haveLength))
    else Success(Unpack(code, bytes))
  }

  // ---------------------------------------------------------------------------
  // Booleans and bytes
  // ---------------------------------------------------------------------------

  /** `$b[0] !== "\x00"`. */
  function ReadBool(b: Bytes): (r: bool)
    requires |b| >= 1
    ensures r <==> b[0] != 0x00
  {
    b[0] != 0x00
  }

  function WriteBool(b: bool): (s: Bytes)
    ensures |s| == 1 && s[0] <= 0x01
  {
    if b then [0x01] else [0x00]
  }

  /** A boolean survives a write and a read; a canonical byte survives a read and a write. */
  lemma BoolRoundTrip(x: bool, s: Bytes)
    ensures ReadBool(WriteBool(x)) == x
    ensures |s| >= 1 && s[0] <= 0x01 ==> WriteBool(ReadBool(s)) == s[..1]
  {
  }

  function ReadByte(c: Bytes): (r: Result<Int, BinaryDataError>)
    ensures r.Failure? <==> c == []
    ensures r.Failure? ==> r.error == ExpectedLengthOne
    ensures r.Success? ==> r.value <= 0xff
  {
    if c == [] then Failure(ExpectedLengthOne) else Success(Ord(c[0]))
  }

  function ReadSignedByte(c: Bytes): (r: Result<Int, BinaryDataError>)
    ensures r.Failure? <==> c == []
    ensures r.Failure? ==> r.error == ExpectedLengthOne
    ensures r.Success? ==> FitsSigned8(r.value)
  {
    if c == [] then Failure(ExpectedLengthOne) else Success(SignByte(Ord(c[0])))
  }

  /** `chr($c)`: one byte, the low 8 bits of `c`. */
  function WriteByte(c: Int): (s: Bytes)
    ensures |s| == 1
  {
    [Chr(c)]
  }

  /** A byte read back from its encoding is the low 8 bits, unsigned or sign-extended. */
  lemma ByteRoundTrip(v: Int)
    ensures ReadByte(WriteByte(v)) == Success(UnsignByte(v))
    ensures ReadSignedByte(WriteByte(v)) == Success(SignByte(v))
  {
  }

  /** Writing what was read gives back the first byte. */
  lemma ByteDecodeEncode(c: Bytes)
    requires c != []
    ensures WriteByte(ReadByte(c).value) == c[..1]
    ensures WriteByte(ReadSignedByte(c).value) == c[..1]
  {
  }

  // ---------------------------------------------------------------------------
  // 16-bit shorts
  // ---------------------------------------------------------------------------

  function ReadShort(str: Bytes): (r: Result<Int, BinaryDataError>)
    ensures r.Failure? <==> |str| < 2
    ensures r.Failure? ==> r.error == NotEnoughBytes(2, |str|)
    ensures r.Success? ==> r.value <= 0xffff
  {
    SafeUnpack(BigEndian16, str, SIZEOF_SHORT)
  }

  function ReadSignedShort(str: Bytes): (r: Result<Int, BinaryDataError>)
    ensures r.Failure? <==> |str| < 2
    ensures r.Failure? ==> r.error == NotEnoughBytes(2, |str|)
    ensures r.Success? ==> FitsSigned16(r.value)
  {
    match SafeUnpack(BigEndian16, str, SIZEOF_SHORT)
    case Success(v) => Success(SignShort(v))
    case Failure(e) => Failure(e)
  }

  function WriteShort(value: Int): (s: Bytes)
    ensures |s| == 2
  {
    Pack(BigEndian16, value)
  }

  function ReadLShort(str: Bytes): (r: Result<Int, BinaryDataError>)
    ensures r.Failure? <==> |str| < 2
    ensures r.Failure? ==> r.error == NotEnoughBytes(2, |str|)
    ensures r.Success? ==> r.value <= 0xffff
  {
    SafeUnpack(LittleEndian16, str, SIZEOF_SHORT)
  }

  function ReadSignedLShort(str: Bytes): (r: Result<Int, BinaryDataError>)
    ensures r.Failure? <==> |str| < 2
    ensures r.Failure? ==> r.error == NotEnoughBytes(2, |str|)
    ensures r.Success? ==> FitsSigned16(r.value)
  {
    match SafeUnpack(LittleEndian16, str, SIZEOF_SHORT)
    case Success(v) => Success(SignShort(v))
    case Failure(e) => Failure(e)
  }

  function WriteLShort(value: Int): (s: Bytes)
    ensures |s| == 2
  {
    Pack(LittleEndian16, value)
  }

  /** A short read back from its encoding is the low 16 bits, unsigned or sign-extended. */
  lemma {:induction false} ShortRoundTrip(v: Int)
    ensures ReadShort(WriteShort(v)) == Success(UnsignShort(v))
    ensures ReadLShort(WriteLShort(v)) == Success(UnsignShort(v))
  {
    UnpackPackN(v);
    UnpackPackV16(v);
  }

  lemma {:induction false} SignedShortRoundTrip(v: Int)
    ensures ReadSignedShort(WriteShort(v)) == Success(SignShort(v))
    ensures ReadSignedLShort(WriteLShort(v)) == Success(SignShort(v))
  {
    UnpackPackN(v);
    UnpackPackV16(v);
    SignUnsignShort(v);
  }

  /** A successful short read, signed or not, keeps the 16 bits that were read. */
  lemma ReadShortLow(str: Bytes)
    requires |str| >= 2
    ensures ReadShort(str).value & 0xffff == UnpackN(str)
    ensures ReadSignedShort(str).value & 0xffff == UnpackN(str)
  {
  }

  lemma ReadLShortLow(str: Bytes)
    requires |str| >= 2
    ensures ReadLShort(str).value & 0xffff == UnpackV16(str)
    ensures ReadSignedLShort(str).value & 0xffff == UnpackV16(str)
  {
  }

  /** Any value whose low 16 bits are those read encodes back to the bytes read. */
  lemma {:induction false} WriteShortOfLow(x: Int, str: Bytes)
    requires |str| >= 2 && x & 0xffff == UnpackN(str)
    ensures WriteShort(x) == str[..2]
  {
    PackNMasked(x);
    PackUnpackN(str);
  }

  lemma {:induction false} WriteLShortOfLow(x: Int, str: Bytes)
    requires |str| >= 2 && x & 0xffff == UnpackV16(str)
    ensures WriteLShort(x) == str[..2]
  {
    PackV16Masked(x);
    PackUnpackV16(str);
  }

  /** Writing what was read, signed or not, gives back the two bytes that were read. */
  lemma {:induction false} ShortDecodeEncode(str: Bytes)
    requires |str| >= 2
    ensures WriteShort(ReadShort(str).value) == str[..2]
  {
    ReadShortLow(str);
    WriteShortOfLow(ReadShort(str).value, str);
  }

  lemma {:induction false} SignedShortDecodeEncode(str: Bytes)
    requires |str| >= 2
    ensures WriteShort(ReadSignedShort(str).value) == str[..2]
  {
    ReadShortLow(str);
    WriteShortOfLow(ReadSignedShort(str).value, str);
  }

  lemma {:induction false} LShortDecodeEncode(str: Bytes)
    requires |str| >= 2
    ensures WriteLShort(ReadLShort(str).value) == str[..2]
  {
    ReadLShortLow(str);
    WriteLShortOfLow(ReadLShort(str).value, str);
  }

  lemma {:induction false} SignedLShortDecodeEncode(str: Bytes)
    requires |str| >= 2
    ensures WriteLShort(ReadSignedLShort(str).value) == str[..2]
  {
    ReadLShortLow(str);
    WriteLShortOfLow(ReadSignedLShort(str).value, str);
  }

  // ---------------------------------------------------------------------------
  // 24-bit triads, carried by the 32-bit codes with a zero pad byte
  // ---------------------------------------------------------------------------

  function ReadTriad(str: Bytes): (r: Result<Int, BinaryDataError>)
    ensures r.Failure? <==> |str| < 3
    ensures r.Failure? ==> r.error == NotEnoughBytes(4, |str| + 1)
    ensures r.Success? ==> r.value <= 0xff_ffff
  {
    var r := SafeUnpack(BigEndian32, [0x00] + str, SIZEOF_INT);
    if r.Success? then
      TriadPad([0x00] + str);
      r
    else r
  }

  /** `substr(pack("N", $value), 1)`: the pack without its top byte. */
  function WriteTriad(value: Int): (s: Bytes)
    ensures |s| == 3
  {
    Pack(BigEndian32, value)[1..]
  }

  /**
   * `readLTriad` as the source writes it: the pad byte is appended AFTER the
   * whole string, so a string of four or more bytes is read as a 32-bit
   * value whose top byte is the string's fourth byte.
   */
  function ReadLTriadAsWritten(str: Bytes): (r: Result<Int, BinaryDataError>)
    ensures r.Failure? <==> |str| < 3
    ensures r.Failure? ==> r.error == NotEnoughBytes(4, |str| + 1)
  {
    SafeUnpack(LittleEndian32, str + [0x00], SIZEOF_INT)
  }

  /** `readLTriad` as intended: only the first three bytes are read. */
  function ReadLTriad(str: Bytes): (r: Result<Int, BinaryDataError>)
    ensures r.Failure? <==> |str| < 3
    ensures r.Failure? ==> r.error == NotEnoughBytes(4, |str| + 1)
    ensures r.Success? ==> r.value <= 0xff_ffff
  {
    if |str| < 3 then Failure(NotEnoughBytes(SIZEOF_INT, |str| + 1))
    else
      var padded := str[..3] + [0x00];
      LTriadPad(padded);
      SafeUnpack(LittleEndian32, padded, SIZEOF_INT)
  }

  /** `substr(pack("V", $value), 0, -1)`: the pack without its last (top) byte. */
  function WriteLTriad(value: Int): (s: Bytes)
    ensures |s| == 3
  {
    Pack(LittleEndian32, value)[..3]
  }

  /** A big-endian 32-bit read whose first byte is zero is a 24-bit value. */
  lemma TriadPad(s: Bytes)
    requires |s| >= 4 && s[0] == 0x00
    ensures UnpackN32(s) <= 0xff_ffff
  {
  }

  /** A little-endian 32-bit read whose fourth byte is zero is a 24-bit value. */
  lemma LTriadPad(s: Bytes)
    requires |s| >= 4 && s[3] == 0x00
    ensures UnpackV32(s) <= 0xff_ffff
  {
  }

  /** The written `readLTriad` puts the fourth byte of a longer string into bits 24 to 31. */
  lemma {:induction false} LTriadAsWrittenTopByte(str: Bytes)
    requires |str| >= 4
    ensures ReadLTriadAsWritten(str).value >> 24 == Ord(str[3])
  {
    assert (str + [0x00])[3] == str[3];
  }

  /** The two readings differ on the four-byte string 01 02 03 04. */
  lemma LTriadReadsFourthByte()
    ensures ReadLTriadAsWritten([0x01, 0x02, 0x03, 0x04]) == Success(0x0403_0201)
    ensures ReadLTriad([0x01, 0x02, 0x03, 0x04]) == Success(0x03_0201)
  {
  }

  /** On exactly three bytes the written and the intended reading agree. */
  lemma {:induction false} LTriadAgreesOnThreeBytes(str: Bytes)
    requires |str| == 3
    ensures ReadLTriadAsWritten(str) == ReadLTriad(str)
  {
    assert str[..3] == str;
  }

  /** The zero top byte of a 24-bit `pack("N")` and `pack("V")`. */
  lemma PackN32Triad(v: Int)
    ensures PackN32(v & 0xff_ffff) == [0x00] + PackN32(v)[1..]
  {
  }

  lemma PackV32Triad(v: Int)
    ensures PackV32(v & 0xff_ffff) == PackV32(v)[..3] + [0x00]
  {
  }

  /** A triad encoding holds exactly the low 24 bits of the value. */
  lemma {:induction false} TriadKeepsLow24(v: Int)
    ensures WriteTriad(v) == WriteTriad(v & 0xff_ffff)
    ensures WriteLTriad(v) == WriteLTriad(v & 0xff_ffff)
  {
    PackN32Triad(v);
    PackV32Triad(v);
  }

  /** A triad read back from its encoding is the low 24 bits of the value. */
  lemma {:induction false} TriadRoundTrip(v: Int)
    ensures ReadTriad(WriteTriad(v)) == Success(v & 0xff_ffff)
  {
    var w := v & 0xff_ffff;
    PackN32Triad(v);
    UnpackPackN32(w);
  }

  lemma {:induction false} LTriadRoundTrip(v: Int)
    ensures ReadLTriad(WriteLTriad(v)) == Success(v & 0xff_ffff)
  {
    var w := v & 0xff_ffff;
    PackV32Triad(v);
    UnpackPackV32(w);
    assert WriteLTriad(v)[..3] == WriteLTriad(v);
  }

  /** Writing a triad that was read gives back the three bytes that were read. */
  lemma {:induction false} TriadDecodeEncode(str: Bytes)
    requires |str| >= 3
    ensures WriteTriad(ReadTriad(str).value) == str[..3]
  {
    PackUnpackN32([0x00] + str);
  }

  lemma {:induction false} LTriadDecodeEncode(str: Bytes)
    requires |str| >= 3
    ensures WriteLTriad(ReadLTriad(str).value) == str[..3]
  {
    PackUnpackV32(str[..3] + [0x00]);
  }

  // ---------------------------------------------------------------------------
  // 32-bit ints
  // ---------------------------------------------------------------------------

  function ReadInt(str: Bytes): (r: Result<Int, BinaryDataError>)
    ensures r.Failure? <==> |str| < 4
    ensures r.Failure? ==> r.error == NotEnoughBytes(4, |str|)
    ensures r.Success? ==> FitsSigned32(r.value)
  {
    match SafeUnpack(BigEndian32, str, SIZEOF_INT)
    case Success(v) => Success(SignInt(v))
    case Failure(e) => Failure(e)
  }

  function WriteInt(value: Int): (s: Bytes)
    ensures |s| == 4
  {
    Pack(BigEndian32, value)
  }

  function ReadLInt(str: Bytes): (r: Result<Int, BinaryDataError>)
    ensures r.Failure? <==> |str| < 4
    ensures r.Failure? ==> r.error == NotEnoughBytes(4, |str|)
    ensures r.Success? ==> FitsSigned32(r.value)
  {
    match SafeUnpack(LittleEndian32, str, SIZEOF_INT)
    case Success(v) => Success(SignInt(v))
    case Failure(e) => Failure(e)
  }

  function WriteLInt(value: Int): (s: Bytes)
    ensures |s| == 4
  {
    Pack(LittleEndian32, value)
  }

  /** An int read back from its encoding is the low 32 bits, sign-extended. */
  lemma {:induction false} IntRoundTrip(v: Int)
    ensures ReadInt(WriteInt(v)) == Success(SignInt(v))
    ensures ReadLInt(WriteLInt(v)) == Success(SignInt(v))
  {
    UnpackPackN32(v);
    UnpackPackV32(v);
    SignUnsignInt(v);
  }

  /** A successful int read keeps the 32 bits that were read. */
  lemma ReadIntLow(str: Bytes)
    requires |str| >= 4
    ensures ReadInt(str).value & 0xffff_ffff == UnpackN32(str)
  {
  }

  lemma ReadLIntLow(str: Bytes)
    requires |str| >= 4
    ensures ReadLInt(str).value & 0xffff_ffff == UnpackV32(str)
  {
  }

  /** Any value whose low 32 bits are those read encodes back to the bytes read. */
  lemma {:induction false} WriteIntOfLow(x: Int, str: Bytes)
    requires |str| >= 4 && x & 0xffff_ffff == UnpackN32(str)
    ensures WriteInt(x) == str[..4]
  {
    PackN32Masked(x);
    PackUnpackN32(str);
  }

  lemma {:induction false} WriteLIntOfLow(x: Int, str: Bytes)
    requires |str| >= 4 && x & 0xffff_ffff == UnpackV32(str)
    ensures WriteLInt(x) == str[..4]
  {
    PackV32Masked(x);
    PackUnpackV32(str);
  }

  /** Writing an int that was read gives back the four bytes that were read. */
  lemma {:induction false} IntDecodeEncode(str: Bytes)
    requires |str| >= 4
    ensures WriteInt(ReadInt(str).value) == str[..4]
  {
    ReadIntLow(str);
    WriteIntOfLow(ReadInt(str).value, str);
  }

  lemma {:induction false} LIntDecodeEncode(str: Bytes)
    requires |str| >= 4
    ensures WriteLInt(ReadLInt(str).value) == str[..4]
  {
    ReadLIntLow(str);
    WriteLIntOfLow(ReadLInt(str).value, str);
  }

  // ---------------------------------------------------------------------------
  // 64-bit longs
  // ---------------------------------------------------------------------------

  function ReadLong(str: Bytes): (r: Result<Int, BinaryDataError>)
    ensures r.Failure? <==> |str| < 8
    ensures r.Failure? ==> r.error == NotEnoughBytes(8, |str|)
  {
    SafeUnpack(BigEndian64, str, SIZEOF_LONG)
  }

  function WriteLong(value: Int): (s: Bytes)
    ensures |s| == 8
  {
    Pack(BigEndian64, value)
  }

  function ReadLLong(str: Bytes): (r: Result<Int, BinaryDataError>)
    ensures r.Failure? <==> |str| < 8
    ensures r.Failure? ==> r.error == NotEnoughBytes(8, |str|)
  {
    SafeUnpack(LittleEndian64, str, SIZEOF_LONG)
  }

  function WriteLLong(value: Int): (s: Bytes)
    ensures |s| == 8
  {
    Pack(LittleEndian64, value)
  }

  /** Every 64-bit value survives both long encodings. */
  lemma {:induction false} LongRoundTrip(v: Int)
    ensures ReadLong(WriteLong(v)) == Success(v)
    ensures ReadLLong(WriteLLong(v)) == Success(v)
  {
    UnpackPackJ(v);
    UnpackPackP(v);
  }

  /** Writing a long that was read gives back the eight bytes that were read. */
  lemma {:induction false} LongDecodeEncode(str: Bytes)
    requires |str| >= 8
    ensures WriteLong(ReadLong(str).value) == str[..8]
    ensures WriteLLong(ReadLLong(str).value) == str[..8]
  {
    PackUnpackJ(str);
    PackUnpackP(str);
  }

  // ---------------------------------------------------------------------------
  // Byte-order flips: write in one order, read back in the other
  // ---------------------------------------------------------------------------

  /** `readLShort(writeShort($value))`. */
  function FlipShortEndianness(value: Int): Int {
    ReadLShort(WriteShort(value)).value
  }

  /** `readLInt(writeInt($value))`. */
  function FlipIntEndianness(value: Int): Int {
    ReadLInt(WriteInt(value)).value
  }

  /** `readLLong(writeLong($value))`. */
  function FlipLongEndianness(value: Int): Int {
    ReadLLong(WriteLong(value)).value
  }

  /** The short flip swaps the two low bytes. */
  lemma FlipShortSwapsBytes(v: Int)
    ensures FlipShortEndianness(v) == ((v & 0xff) << 8) | ((v >> 8) & 0xff)
  {
  }

  /** The int flip reverses the four low bytes and sign-extends the result. */
  lemma FlipIntSwapsBytes(v: Int)
    ensures FlipIntEndianness(v) ==
      SignInt(((v & 0xff) << 24) | (((v >> 8) & 0xff) << 16) | (((v >> 16) & 0xff) << 8) | ((v >> 24) & 0xff))
  {
  }

  /** The long flip reverses all eight bytes. */
  lemma FlipLongSwapsBytes(v: Int)
    ensures FlipLongEndianness(v) ==
      ((v & 0xff) << 56) | (((v >> 8) & 0xff) << 48) |
      (((v >> 16) & 0xff) << 40) | (((v >> 24) & 0xff) << 32) |
      (((v >> 32) & 0xff) << 24) | (((v >> 40) & 0xff) << 16) |
      (((v >> 48) & 0xff) << 8) | ((v >> 56) & 0xff)
  {
  }

  /** Flipping twice restores the value, up to the width the flip works in. */
  lemma {:induction false} FlipShortTwice(v: Int)
    ensures FlipShortEndianness(FlipShortEndianness(v)) == v & 0xffff
  {
    FlipShortSwapsBytes(v);
    FlipShortSwapsBytes(FlipShortEndianness(v));
  }

  lemma {:induction false} FlipIntTwice(v: Int)
    ensures FlipIntEndianness(FlipIntEndianness(v)) == SignInt(v)
  {
    FlipIntSwapsBytes(v);
    FlipIntSwapsBytes(FlipIntEndianness(v));
  }

  lemma {:induction false} FlipLongTwice(v: Int)
    ensures FlipLongEndianness(FlipLongEndianness(v)) == v
  {
    FlipLongSwapsBytes(v);
    FlipLongSwapsBytes(FlipLongEndianness(v));
  }

  /** Worked flips: a short, an int with and without its sign bit set, a long. */
  lemma FlipShortExample()
    ensures FlipShortEndianness(0x1234) == 0x3412
  {
  }

  lemma FlipIntExamples()
    ensures FlipIntEndianness(0x1234_5678) == 0x7856_3412
    ensures FlipIntEndianness(0x0000_0080) == 0xFFFF_FFFF_8000_0000
  {
  }

  lemma FlipLongExample()
    ensures FlipLongEndianness(0x0102_0304_0506_0708) == 0x0807_0605_0403_0201
  {
  }
}
