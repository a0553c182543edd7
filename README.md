# PocketMine binary primitives, colours and error names in Dafny

This project models three small libraries from a PocketMine-MP plugin's
vendored dependencies:

- `pocketmine/binaryutils`, class `Binary`. This is the codec that packs
  primitive values for the Bedrock network protocol. It covers:
  - the sign and unsign helpers;
  - the length-checked `unpack`;
  - booleans and bytes;
  - 16-bit shorts, 24-bit triads, 32-bit ints and 64-bit longs, in both byte
    orders;
  - the byte-order flips;
  - the base-128 varints with the ZigZag signed mapping of the Protocol
    Buffers wire format.
- `pocketmine/color`, class `Color`. This is an immutable ARGB colour with its
  32-bit colour codes and the channel-wise mean of a list of colours.
- `pocketmine/errorhandler`, class `ErrorTypeToStringMap`. This is the table
  from PHP's `E_*` error levels to their names.

## How PHP is represented

- **Integers.** A PHP `int` is a 64-bit two's-complement word, `Php.Int` =
  `bv64`. PHP's arithmetic shift `$x >> $k` is written `((x ^ m) >> k) ^ m`
  with Dafny's logical shift and a sign fill `m`, all ones for a negative word
  and zero otherwise. The sign helpers and `Sar7` compute `m` as
  `if x < SIGN_BIT then 0 else 0xFFFF_FFFF_FFFF_FFFF`; the ZigZag functions
  compute it without a branch as `0 - (x >> 63)`. Signed ranges are stated on
  the bit patterns by `Php.FitsSigned8/16/32`.
- **Byte strings.** A byte string is `seq<bv8>`. `chr` and `ord` are
  `Php.Chr` and `Php.Ord`. `$s[$offset]` with PHP's negative offsets is
  `Php.StringOffset`.
- **Exceptions.**
  - A `BinaryDataException` is a constructor of `Binary.BinaryDataError`. A
    decoder that can throw returns a `Result`.
  - An `InvalidArgumentException` is `ErrorTypeNames.InvalidArgument`, which
    carries its message.
- **The by-reference `$offset` of the varint readers.** It is returned as a
  second result, on the error paths too.
- **`pack`/`unpack` with the codes `n`, `v`, `N`, `V`, `J` and `P`.** Each is a
  pair of functions (`Binary.PackN`/`Binary.UnpackN` and so on) that state
  the byte layout those codes define.
- **Loops.** The varint readers and writers and `Color::mix` are methods with
  loops. Each is proved equal to a recursive specification function:
  - `ReadGroups` for the readers;
  - `EncodeGroups` for the writers;
  - `MixOf` for `mix`.

  The properties are then proved as lemmas about those functions.
- **`Color`.** The class's four private fields are assigned once in the
  constructor and never change, so a colour is a datatype whose fields are
  the getters.

`readUnsignedVarInt` does not cut its result to 32 bits. A fifth byte
contributes bits 28 to 34, so the model reads `ff ff ff ff 7f` as
`0x7_ffff_ffff`, as the code does (`BinaryVarInt.ExampleWideVarInt`).

## Model

| member | source | states |
|---|---|---|
| Php.FitsSignedBounds | vendor/pocketmine/binaryutils/src/Binary.php:49-71 | the signed 8-, 16- and 32-bit ranges end exactly at -2^(k-1) and 2^(k-1)-1 |
| Php.FitsSignedNested | vendor/pocketmine/binaryutils/src/Binary.php:49-71 | a value in the signed 8-bit range is in the 16-bit one, and a 16-bit one is in the 32-bit one |
| Php.ChrOrd | vendor/pocketmine/binaryutils/src/Binary.php:122-146 | `chr(ord(c))` is `c`, and `ord(chr(x))` is the low byte of `x` |
| Php.StringOffset | vendor/pocketmine/binaryutils/src/Binary.php:406-409 | `$s[$offset]` is set exactly when -len <= offset < len; a negative offset counts from the end |
| Php.Chr | vendor/pocketmine/binaryutils/src/Binary.php:144-146 | `chr($x)`: the low byte of x (stated by `Php.ChrOrd`) |
| Php.Ord | vendor/pocketmine/binaryutils/src/Binary.php:122-128 | `ord($c)`: the byte as a value in [0, 255] (stated by `Php.ChrOrd`) |
| Binary.SignByte | vendor/pocketmine/binaryutils/src/Binary.php:49-51 | `signByte` gives a value in [-128, 127] whose low byte is the input's |
| Binary.UnsignByte | vendor/pocketmine/binaryutils/src/Binary.php:53-55 | `unsignByte` gives a value in [0, 255] whose low byte is the input's |
| Binary.SignShort | vendor/pocketmine/binaryutils/src/Binary.php:57-59 | `signShort` gives a value in [-2^15, 2^15) whose low 16 bits are the input's |
| Binary.UnsignShort | vendor/pocketmine/binaryutils/src/Binary.php:61-63 | `unsignShort` gives a value in [0, 0xffff] whose low 16 bits are the input's |
| Binary.SignInt | vendor/pocketmine/binaryutils/src/Binary.php:65-67 | `signInt` gives a value in [-2^31, 2^31) whose low 32 bits are the input's |
| Binary.UnsignInt | vendor/pocketmine/binaryutils/src/Binary.php:69-71 | `unsignInt` gives a value in [0, 0xffffffff] whose low 32 bits are the input's |
| Binary.SignByteIsUnique | vendor/pocketmine/binaryutils/src/Binary.php:49-51 | any value in the signed 8-bit range that has the input's low byte is `signByte`'s result |
| Binary.SignShortIsUnique | vendor/pocketmine/binaryutils/src/Binary.php:57-59 | any value in the signed 16-bit range that has the input's low 16 bits is `signShort`'s result |
| Binary.SignIntIsUnique | vendor/pocketmine/binaryutils/src/Binary.php:65-67 | any value in the signed 32-bit range that has the input's low 32 bits is `signInt`'s result |
| Binary.SignUnsignByte | vendor/pocketmine/binaryutils/src/Binary.php:49-55 | `unsignByte(signByte(v)) == v & 0xff` and `signByte(unsignByte(v)) == signByte(v)` |
| Binary.SignUnsignShort | vendor/pocketmine/binaryutils/src/Binary.php:57-63 | `unsignShort(signShort(v)) == v & 0xffff` and `signShort(unsignShort(v)) == signShort(v)` |
| Binary.SignUnsignInt | vendor/pocketmine/binaryutils/src/Binary.php:65-71 | `unsignInt(signInt(v)) == v & 0xffffffff` and `signInt(unsignInt(v)) == signInt(v)` |
| Binary.SignByteIdempotent | vendor/pocketmine/binaryutils/src/Binary.php:49-51 | `signByte` leaves a value already in the signed 8-bit range unchanged |
| Binary.SignShortIdempotent | vendor/pocketmine/binaryutils/src/Binary.php:57-59 | `signShort` leaves a value already in the signed 16-bit range unchanged |
| Binary.SignIntIdempotent | vendor/pocketmine/binaryutils/src/Binary.php:65-67 | `signInt` leaves a value already in the signed 32-bit range unchanged |
| Binary.PackN | vendor/pocketmine/binaryutils/src/Binary.php:169-171 | `pack("n", v)` is two bytes |
| Binary.UnpackN | vendor/pocketmine/binaryutils/src/Binary.php:153-155 | `unpack("n", s)` reads an unsigned 16-bit value |
| Binary.PackV16 | vendor/pocketmine/binaryutils/src/Binary.php:194-196 | `pack("v", v)` is two bytes |
| Binary.UnpackV16 | vendor/pocketmine/binaryutils/src/Binary.php:178-180 | `unpack("v", s)` reads an unsigned 16-bit value |
| Binary.PackN32 | vendor/pocketmine/binaryutils/src/Binary.php:242-244 | `pack("N", v)` is four bytes |
| Binary.UnpackN32 | vendor/pocketmine/binaryutils/src/Binary.php:235-237 | `unpack("N", s)` reads an unsigned 32-bit value |
| Binary.PackV32 | vendor/pocketmine/binaryutils/src/Binary.php:258-260 | `pack("V", v)` is four bytes |
| Binary.UnpackV32 | vendor/pocketmine/binaryutils/src/Binary.php:251-253 | `unpack("V", s)` reads an unsigned 32-bit value |
| Binary.PackJ | vendor/pocketmine/binaryutils/src/Binary.php:363-365 | `pack("J", v)` is eight bytes |
| Binary.PackP | vendor/pocketmine/binaryutils/src/Binary.php:379-381 | `pack("P", v)` is eight bytes |
| Binary.UnpackJ | vendor/pocketmine/binaryutils/src/Binary.php:356-358 | `unpack("J", s)` reads the first eight bytes big-endian; every word can result, and `UnpackPackJ`/`PackUnpackJ` state it inverts `pack("J")` both ways |
| Binary.UnpackP | vendor/pocketmine/binaryutils/src/Binary.php:372-374 | `unpack("P", s)` reads the first eight bytes little-endian; `UnpackPackP`/`PackUnpackP` state it inverts `pack("P")` both ways |
| Binary.UnpackPackN | vendor/pocketmine/binaryutils/src/Binary.php:153-171 | unpacking "n" after packing "n" gives the low 16 bits |
| Binary.UnpackPackV16 | vendor/pocketmine/binaryutils/src/Binary.php:178-196 | unpacking "v" after packing "v" gives the low 16 bits |
| Binary.UnpackPackN32 | vendor/pocketmine/binaryutils/src/Binary.php:235-244 | unpacking "N" after packing "N" gives the low 32 bits |
| Binary.UnpackPackV32 | vendor/pocketmine/binaryutils/src/Binary.php:251-260 | unpacking "V" after packing "V" gives the low 32 bits |
| Binary.UnpackPackJ | vendor/pocketmine/binaryutils/src/Binary.php:356-365 | unpacking "J" after packing "J" gives the whole word |
| Binary.UnpackPackP | vendor/pocketmine/binaryutils/src/Binary.php:372-381 | unpacking "P" after packing "P" gives the whole word |
| Binary.PackUnpackN | vendor/pocketmine/binaryutils/src/Binary.php:153-171 | packing "n" after unpacking "n" gives back the first two bytes |
| Binary.PackUnpackV16 | vendor/pocketmine/binaryutils/src/Binary.php:178-196 | packing "v" after unpacking "v" gives back the first two bytes |
| Binary.PackUnpackN32 | vendor/pocketmine/binaryutils/src/Binary.php:235-244 | packing "N" after unpacking "N" gives back the first four bytes |
| Binary.PackUnpackV32 | vendor/pocketmine/binaryutils/src/Binary.php:251-260 | packing "V" after unpacking "V" gives back the first four bytes |
| Binary.PackUnpackJ | vendor/pocketmine/binaryutils/src/Binary.php:356-365 | packing "J" after unpacking "J" gives back the first eight bytes |
| Binary.PackUnpackP | vendor/pocketmine/binaryutils/src/Binary.php:372-381 | packing "P" after unpacking "P" gives back the first eight bytes |
| Binary.PackNMasked | vendor/pocketmine/binaryutils/src/Binary.php:169-171 | "n" encodes only the low 16 bits |
| Binary.PackV16Masked | vendor/pocketmine/binaryutils/src/Binary.php:194-196 | "v" encodes only the low 16 bits |
| Binary.PackN32Masked | vendor/pocketmine/binaryutils/src/Binary.php:242-244 | "N" encodes only the low 32 bits |
| Binary.PackV32Masked | vendor/pocketmine/binaryutils/src/Binary.php:258-260 | "V" encodes only the low 32 bits |
| Binary.Pack | vendor/pocketmine/binaryutils/src/Binary.php:169-381 | `pack` with a supported code gives exactly the code's byte count |
| Binary.SafeUnpack | vendor/pocketmine/binaryutils/src/Binary.php:89-101 | throws "Not enough bytes: need N, have M" exactly when the input is shorter than N, else unpacks |
| Binary.Unpack | vendor/pocketmine/binaryutils/src/Binary.php:95 | `unpack($formatCode, $bytes)[1]` for the six codes, dispatching to the per-code readers; what it gives is stated by `SafeUnpack` and the per-code round trips |
| Binary.ReadBool | vendor/pocketmine/binaryutils/src/Binary.php:106-108 | true exactly when the first byte is not zero |
| Binary.WriteBool | vendor/pocketmine/binaryutils/src/Binary.php:113-115 | one byte, 0 or 1 |
| Binary.BoolRoundTrip | vendor/pocketmine/binaryutils/src/Binary.php:106-115 | reading a written boolean gives it back; writing a read 0/1 byte gives the byte back |
| Binary.ReadByte | vendor/pocketmine/binaryutils/src/Binary.php:122-128 | throws "Expected a string of length 1" exactly on "", else a value in [0, 255] |
| Binary.ReadSignedByte | vendor/pocketmine/binaryutils/src/Binary.php:134-140 | throws exactly on "", else a value in [-128, 127] |
| Binary.WriteByte | vendor/pocketmine/binaryutils/src/Binary.php:144-146 | one byte |
| Binary.ByteRoundTrip | vendor/pocketmine/binaryutils/src/Binary.php:49-55 | `readByte(writeByte(v)) == unsignByte(v)` and `readSignedByte(writeByte(v)) == signByte(v)` |
| Binary.ByteDecodeEncode | vendor/pocketmine/binaryutils/src/Binary.php:122-146 | writing a byte that was read, signed or not, gives back the first byte of the input |
| Binary.ReadShort | vendor/pocketmine/binaryutils/src/Binary.php:153-155 | throws "need 2" exactly below two bytes, else a value in [0, 0xffff] |
| Binary.ReadSignedShort | vendor/pocketmine/binaryutils/src/Binary.php:162-164 | throws "need 2" exactly below two bytes, else a value in the signed 16-bit range |
| Binary.WriteShort | vendor/pocketmine/binaryutils/src/Binary.php:169-171 | two bytes |
| Binary.ReadLShort | vendor/pocketmine/binaryutils/src/Binary.php:178-180 | throws "need 2" exactly below two bytes, else a value in [0, 0xffff] |
| Binary.ReadSignedLShort | vendor/pocketmine/binaryutils/src/Binary.php:187-189 | throws "need 2" exactly below two bytes, else a value in the signed 16-bit range |
| Binary.WriteLShort | vendor/pocketmine/binaryutils/src/Binary.php:194-196 | two bytes |
| Binary.ShortRoundTrip | vendor/pocketmine/binaryutils/src/Binary.php:153-196 | `readShort(writeShort(v)) == v & 0xffff`, and the same for the little-endian pair |
| Binary.SignedShortRoundTrip | vendor/pocketmine/binaryutils/src/Binary.php:153-196 | `readSignedShort(writeShort(v)) == signShort(v)`, and the same for the little-endian pair |
| Binary.ReadShortLow | vendor/pocketmine/binaryutils/src/Binary.php:153-164 | both big-endian short readers keep the 16 bits that `unpack("n")` reads |
| Binary.ReadLShortLow | vendor/pocketmine/binaryutils/src/Binary.php:178-189 | both little-endian short readers keep the 16 bits that `unpack("v")` reads |
| Binary.WriteShortOfLow | vendor/pocketmine/binaryutils/src/Binary.php:169-171 | any value with the input's low 16 bits rewrites the input's first two bytes |
| Binary.WriteLShortOfLow | vendor/pocketmine/binaryutils/src/Binary.php:194-196 | the same for the little-endian writer |
| Binary.ShortDecodeEncode | vendor/pocketmine/binaryutils/src/Binary.php:153-171 | `writeShort(readShort(s))` is the first two bytes of `s` |
| Binary.SignedShortDecodeEncode | vendor/pocketmine/binaryutils/src/Binary.php:162-171 | `writeShort(readSignedShort(s))` is the first two bytes of `s` |
| Binary.LShortDecodeEncode | vendor/pocketmine/binaryutils/src/Binary.php:178-196 | `writeLShort(readLShort(s))` is the first two bytes of `s` |
| Binary.SignedLShortDecodeEncode | vendor/pocketmine/binaryutils/src/Binary.php:187-196 | `writeLShort(readSignedLShort(s))` is the first two bytes of `s` |
| Binary.ReadTriad | vendor/pocketmine/binaryutils/src/Binary.php:203-205 | throws "need 4, have len+1" exactly below three bytes, else a value in [0, 0xffffff] |
| Binary.WriteTriad | vendor/pocketmine/binaryutils/src/Binary.php:210-212 | three bytes |
| Binary.ReadLTriadAsWritten | vendor/pocketmine/binaryutils/src/Binary.php:219-221 | `readLTriad` as written throws exactly below three bytes |
| Binary.ReadLTriad | vendor/pocketmine/binaryutils/src/Binary.php:219-221 | corrected `readLTriad`: throws exactly below three bytes, else a value in [0, 0xffffff] |
| Binary.WriteLTriad | vendor/pocketmine/binaryutils/src/Binary.php:226-228 | three bytes |
| Binary.TriadPad | vendor/pocketmine/binaryutils/src/Binary.php:203-205 | a zero pad in front bounds the big-endian 32-bit read to 24 bits |
| Binary.LTriadPad | vendor/pocketmine/binaryutils/src/Binary.php:219-221 | a zero fourth byte bounds the little-endian 32-bit read to 24 bits |
| Binary.LTriadAsWrittenTopByte | vendor/pocketmine/binaryutils/src/Binary.php:219-221 | as written, on four or more bytes the fourth byte becomes bits 24 to 31 of the result |
| Binary.LTriadReadsFourthByte | vendor/pocketmine/binaryutils/src/Binary.php:219-221 | as written, `01 02 03 04` reads as 0x04030201; corrected, as 0x030201 |
| Binary.LTriadAgreesOnThreeBytes | vendor/pocketmine/binaryutils/src/Binary.php:219-221 | on exactly three bytes the code as written and the corrected reader agree |
| Binary.PackN32Triad | vendor/pocketmine/binaryutils/src/Binary.php:210-212 | the 32-bit big-endian bytes of `v & 0xffffff` are a zero byte and the last three bytes of `v`'s |
| Binary.PackV32Triad | vendor/pocketmine/binaryutils/src/Binary.php:226-228 | the 32-bit little-endian bytes of `v & 0xffffff` are the first three bytes of `v`'s and a zero byte |
| Binary.TriadKeepsLow24 | vendor/pocketmine/binaryutils/src/Binary.php:210-228 | both triad writers encode only the low 24 bits |
| Binary.TriadRoundTrip | vendor/pocketmine/binaryutils/src/Binary.php:203-212 | `readTriad(writeTriad(v)) == v & 0xffffff` |
| Binary.LTriadRoundTrip | vendor/pocketmine/binaryutils/src/Binary.php:219-228 | `readLTriad(writeLTriad(v)) == v & 0xffffff`, for the corrected reader |
| Binary.TriadDecodeEncode | vendor/pocketmine/binaryutils/src/Binary.php:203-212 | `writeTriad(readTriad(s))` is the first three bytes of `s` |
| Binary.LTriadDecodeEncode | vendor/pocketmine/binaryutils/src/Binary.php:219-228 | `writeLTriad(readLTriad(s))` is the first three bytes of `s`, for the corrected reader |
| Binary.ReadInt | vendor/pocketmine/binaryutils/src/Binary.php:235-237 | throws "need 4" exactly below four bytes, else a value in the signed 32-bit range |
| Binary.WriteInt | vendor/pocketmine/binaryutils/src/Binary.php:242-244 | four bytes |
| Binary.ReadLInt | vendor/pocketmine/binaryutils/src/Binary.php:251-253 | throws "need 4" exactly below four bytes, else a value in the signed 32-bit range |
| Binary.WriteLInt | vendor/pocketmine/binaryutils/src/Binary.php:258-260 | four bytes |
| Binary.IntRoundTrip | vendor/pocketmine/binaryutils/src/Binary.php:235-260 | `readInt(writeInt(v)) == signInt(v)` and `readLInt(writeLInt(v)) == signInt(v)` |
| Binary.ReadIntLow | vendor/pocketmine/binaryutils/src/Binary.php:235-237 | `readInt` keeps the 32 bits that `unpack("N")` reads |
| Binary.ReadLIntLow | vendor/pocketmine/binaryutils/src/Binary.php:251-253 | `readLInt` keeps the 32 bits that `unpack("V")` reads |
| Binary.WriteIntOfLow | vendor/pocketmine/binaryutils/src/Binary.php:242-244 | any value with the input's low 32 bits rewrites the input's first four bytes |
| Binary.WriteLIntOfLow | vendor/pocketmine/binaryutils/src/Binary.php:258-260 | the same for the little-endian writer |
| Binary.IntDecodeEncode | vendor/pocketmine/binaryutils/src/Binary.php:235-244 | `writeInt(readInt(s))` is the first four bytes of `s` |
| Binary.LIntDecodeEncode | vendor/pocketmine/binaryutils/src/Binary.php:251-260 | `writeLInt(readLInt(s))` is the first four bytes of `s` |
| Binary.ReadLong | vendor/pocketmine/binaryutils/src/Binary.php:356-358 | throws "need 8" exactly below eight bytes |
| Binary.WriteLong | vendor/pocketmine/binaryutils/src/Binary.php:363-365 | eight bytes |
| Binary.ReadLLong | vendor/pocketmine/binaryutils/src/Binary.php:372-374 | throws "need 8" exactly below eight bytes |
| Binary.WriteLLong | vendor/pocketmine/binaryutils/src/Binary.php:379-381 | eight bytes |
| Binary.LongRoundTrip | vendor/pocketmine/binaryutils/src/Binary.php:356-381 | `readLong(writeLong(v)) == v` and `readLLong(writeLLong(v)) == v` for every word |
| Binary.LongDecodeEncode | vendor/pocketmine/binaryutils/src/Binary.php:356-381 | writing a long that was read gives back the first eight bytes, in both byte orders |
| Binary.FlipShortEndianness | vendor/pocketmine/binaryutils/src/Binary.php:73-75 | `readLShort(writeShort($value))`; `FlipShortSwapsBytes` states the byte swap and `FlipShortTwice` the double flip |
| Binary.FlipIntEndianness | vendor/pocketmine/binaryutils/src/Binary.php:77-79 | `readLInt(writeInt($value))`; `FlipIntSwapsBytes` states the reversal with sign extension and `FlipIntTwice` the double flip |
| Binary.FlipLongEndianness | vendor/pocketmine/binaryutils/src/Binary.php:81-83 | `readLLong(writeLong($value))`; `FlipLongSwapsBytes` states the reversal and `FlipLongTwice` the double flip |
| Binary.FlipShortSwapsBytes | vendor/pocketmine/binaryutils/src/Binary.php:73-75 | `flipShortEndianness` swaps the two low bytes and drops the rest |
| Binary.FlipIntSwapsBytes | vendor/pocketmine/binaryutils/src/Binary.php:77-79 | `flipIntEndianness` reverses the four low bytes and sign-extends from bit 31 |
| Binary.FlipLongSwapsBytes | vendor/pocketmine/binaryutils/src/Binary.php:81-83 | `flipLongEndianness` reverses the eight bytes |
| Binary.FlipShortTwice | vendor/pocketmine/binaryutils/src/Binary.php:73-75 | flipping a short twice gives its low 16 bits |
| Binary.FlipIntTwice | vendor/pocketmine/binaryutils/src/Binary.php:77-79 | flipping an int twice gives `signInt` of it |
| Binary.FlipLongTwice | vendor/pocketmine/binaryutils/src/Binary.php:81-83 | flipping a long twice gives it back |
| Binary.FlipShortExample | vendor/pocketmine/binaryutils/src/Binary.php:73-75 | 0x1234 flips to 0x3412 |
| Binary.FlipIntExamples | vendor/pocketmine/binaryutils/src/Binary.php:77-79 | 0x12345678 flips to 0x78563412; 0x80 flips to the negative -2^31 |
| Binary.FlipLongExample | vendor/pocketmine/binaryutils/src/Binary.php:81-83 | 0x0102030405060708 flips to 0x0807060504030201 |
| BinaryVarInt.Shl | vendor/pocketmine/binaryutils/src/Binary.php:410 | PHP's `$x << $i` below 64, bits past bit 63 lost; `GroupSplit` states how it splits a value into groups |
| BinaryVarInt.Place | vendor/pocketmine/binaryutils/src/Binary.php:410 | `$value \| (($b & 0x7f) << $i)`; `PlaceContinued`/`PlaceFinal` state what placing a written byte adds |
| BinaryVarInt.GroupSplit | vendor/pocketmine/binaryutils/src/Binary.php:410 | at every shift i from 0 to 56, a value at i is its low seven bits at i joined with the rest at i+7 |
| BinaryVarInt.Sar7 | vendor/pocketmine/binaryutils/src/Binary.php:437 | the arithmetic `$remaining >> 7` is zero exactly when the logical one is |
| BinaryVarInt.ShiftOutGroup | vendor/pocketmine/binaryutils/src/Binary.php:444 | `($remaining >> 7) & (PHP_INT_MAX >> 6)` is the logical shift by seven |
| BinaryVarInt.ReadGroups | vendor/pocketmine/binaryutils/src/Binary.php:403-418 | the reader loop as a recursive function, the specification `ReadUnsigned` is proved against; `ReadGroupsEnds`, `ReadComplete` and the round trips state how it ends and what it returns |
| BinaryVarInt.ReadUnsigned | vendor/pocketmine/binaryutils/src/Binary.php:403-418 | the reader loop returns the result and the offset that `ReadGroups` describes |
| BinaryVarInt.ReadUnsignedVarInt | vendor/pocketmine/binaryutils/src/Binary.php:403-418 | `readUnsignedVarInt` is the shared loop with shifts 0 to 28 and five bytes |
| BinaryVarInt.ReadUnsignedVarLong | vendor/pocketmine/binaryutils/src/Binary.php:470-485 | `readUnsignedVarLong` is the shared loop with shifts 0 to 63 and ten bytes |
| BinaryVarInt.EncodeGroups | vendor/pocketmine/binaryutils/src/Binary.php:433-448 | the writer loop as a recursive function, the specification `WriteUnsigned` is proved against; `EncodeGroupsShape`, `EncodeGroupsShortest`, `VarIntFits` and `VarLongFits` state its shape and when it overflows |
| BinaryVarInt.WriteUnsigned | vendor/pocketmine/binaryutils/src/Binary.php:433-448 | the writer loop returns the bytes that `EncodeGroups` describes, or the overflow |
| BinaryVarInt.VarIntFits | vendor/pocketmine/binaryutils/src/Binary.php:433-448 | five groups encode a value exactly when it is below 2^35, so after the 32-bit mask the "too large" throw cannot happen |
| BinaryVarInt.VarLongFits | vendor/pocketmine/binaryutils/src/Binary.php:497-512 | ten groups encode every word: the "too large" throw cannot happen |
| BinaryVarInt.WriteUnsignedVarInt | vendor/pocketmine/binaryutils/src/Binary.php:433-448 | `writeUnsignedVarInt` never throws and writes the groups of the low 32 bits |
| BinaryVarInt.WriteUnsignedVarLong | vendor/pocketmine/binaryutils/src/Binary.php:497-512 | `writeUnsignedVarLong` never throws and writes the groups of the value |
| BinaryVarInt.EncodeGroupsShape | vendor/pocketmine/binaryutils/src/Binary.php:436-445 | an encoding has 1 to budget bytes; all but the last have the continuation bit and the last has not |
| BinaryVarInt.EncodeGroupsShortest | vendor/pocketmine/binaryutils/src/Binary.php:436-445 | an encoding ends in a zero byte only when it is the single byte 0 |
| BinaryVarInt.StepsOfReaders | vendor/pocketmine/binaryutils/src/Binary.php:405 | the shifts 0..28 step by 7 allow five bytes and 0..63 allow ten |
| BinaryVarInt.ReadContinuing | vendor/pocketmine/binaryutils/src/Binary.php:409-414 | a byte with bit 0x80 places its low seven bits and hands on to the next shift and offset |
| BinaryVarInt.ReadLast | vendor/pocketmine/binaryutils/src/Binary.php:409-414 | a byte without bit 0x80 ends the read successfully with the offset just past it |
| BinaryVarInt.ReadGroupsEnds | vendor/pocketmine/binaryutils/src/Binary.php:403-418 | from an offset in 0..len, a read succeeds just past the first byte without 0x80, or throws "No bytes left" at the buffer's end, or throws "did not terminate" after exactly the allowed bytes |
| BinaryVarInt.ReadUnsignedVarIntEnds | vendor/pocketmine/binaryutils/src/Binary.php:403-418 | from an offset in 0..len, the same for `readUnsignedVarInt`, with at most five bytes consumed |
| BinaryVarInt.ReadUnsignedVarLongEnds | vendor/pocketmine/binaryutils/src/Binary.php:470-485 | from an offset in 0..len, the same for `readUnsignedVarLong`, with at most ten bytes consumed |
| BinaryVarInt.PlaceContinued | vendor/pocketmine/binaryutils/src/Binary.php:437-438 | the byte written for a value with more to come continues, and reading it places the low group |
| BinaryVarInt.PlaceFinal | vendor/pocketmine/binaryutils/src/Binary.php:439-441 | the last byte written does not continue, and reading it places the rest of the value |
| BinaryVarInt.ReadComplete | vendor/pocketmine/binaryutils/src/Binary.php:403-418 | on a well-formed group sequence inside the buffer the reader succeeds just past it with the assembled value |
| BinaryVarInt.AssembleEncoded | vendor/pocketmine/binaryutils/src/Binary.php:410 | assembling the groups the writer emits gives back the value at its shift |
| BinaryVarInt.UnsignedVarIntRoundTrip | vendor/pocketmine/binaryutils/src/Binary.php:403-448 | reading what `writeUnsignedVarInt(v)` wrote, anywhere in a buffer, gives `v & 0xffffffff` with the offset just past it |
| BinaryVarInt.UnsignedVarLongRoundTrip | vendor/pocketmine/binaryutils/src/Binary.php:470-512 | reading what `writeUnsignedVarLong(v)` wrote, anywhere in a buffer, gives `v` with the offset just past it |
| BinaryVarInt.ZigZagDecode | vendor/pocketmine/binaryutils/src/Binary.php:392-393 | the decoding of `readVarInt`/`readVarLong`; `ZigZagDecodeEven`/`ZigZagDecodeOdd` state its value and `ZigZagEncodeDecode`/`ZigZagDecodeEncode` that it inverts the encoding |
| BinaryVarInt.ZigZagEncode64 | vendor/pocketmine/binaryutils/src/Binary.php:491 | `($v << 1) ^ ($v >> 63)`; `ZigZagEncodeNonNegative`/`ZigZagEncodeNegative` state its value by sign |
| BinaryVarInt.ZigZagEncode32 | vendor/pocketmine/binaryutils/src/Binary.php:424-425 | `writeVarInt`'s encoding after `$v << 32 >> 32`; `ZigZagEncode32Is64` states it is the 64-bit encoding of `signInt(v)` and fits in 32 bits |
| BinaryVarInt.ZigZagEncode32Step | vendor/pocketmine/binaryutils/src/Binary.php:425 | `($v << 1) ^ ($v >> 31)` on the sign-extended v; `ZigZagEncode32NonNegative`/`ZigZagEncode32Negative` state its value by sign |
| BinaryVarInt.ZigZagDecodeEven | vendor/pocketmine/binaryutils/src/Binary.php:392-393 | the ZigZag decoding of an even raw value is half of it |
| BinaryVarInt.ZigZagDecodeOdd | vendor/pocketmine/binaryutils/src/Binary.php:392-393 | the ZigZag decoding of an odd raw value is the complement of half of it |
| BinaryVarInt.ZigZagEncodeNonNegative | vendor/pocketmine/binaryutils/src/Binary.php:491 | a non-negative long encodes to twice itself |
| BinaryVarInt.ZigZagEncodeNegative | vendor/pocketmine/binaryutils/src/Binary.php:491 | a negative long encodes to the complement of twice itself |
| BinaryVarInt.ZigZagEncode32NonNegative | vendor/pocketmine/binaryutils/src/Binary.php:425 | a non-negative 32-bit int encodes to twice itself, below 2^32 |
| BinaryVarInt.ZigZagEncode32Negative | vendor/pocketmine/binaryutils/src/Binary.php:425 | a negative 32-bit int encodes to the complement of twice itself, below 2^32 |
| BinaryVarInt.ZigZagEncode32Is64 | vendor/pocketmine/binaryutils/src/Binary.php:423-426 | `writeVarInt`'s encoding is the 64-bit one of `signInt(v)` and fits in 32 bits |
| BinaryVarInt.ZigZagDecodeEncode | vendor/pocketmine/binaryutils/src/Binary.php:390-394 | decoding the ZigZag encoding of any long gives it back |
| BinaryVarInt.ZigZagEncodeDecode | vendor/pocketmine/binaryutils/src/Binary.php:390-394 | encoding the ZigZag decoding of any raw word gives it back: the mapping is a bijection |
| BinaryVarInt.ZigZagOrder | vendor/pocketmine/binaryutils/src/Binary.php:490-492 | 0, -1, 1, -2, 2 map to 0, 1, 2, 3, 4, and the extremes map to the two largest words |
| BinaryVarInt.ZigZagOutcome | vendor/pocketmine/binaryutils/src/Binary.php:390-394 | the signed reader keeps the offset and the exception of the unsigned one and decodes its value |
| BinaryVarInt.ReadVarInt | vendor/pocketmine/binaryutils/src/Binary.php:390-394 | `readVarInt` is `readUnsignedVarInt` followed by the ZigZag decoding |
| BinaryVarInt.ReadVarLong | vendor/pocketmine/binaryutils/src/Binary.php:457-461 | `readVarLong` is `readUnsignedVarLong` followed by the ZigZag decoding |
| BinaryVarInt.WriteVarInt | vendor/pocketmine/binaryutils/src/Binary.php:423-426 | `writeVarInt` never throws and writes the groups of the 32-bit ZigZag encoding |
| BinaryVarInt.WriteVarLong | vendor/pocketmine/binaryutils/src/Binary.php:490-492 | `writeVarLong` never throws and writes the groups of the 64-bit ZigZag encoding |
| BinaryVarInt.VarIntRoundTrip | vendor/pocketmine/binaryutils/src/Binary.php:390-448 | `readVarInt` of what `writeVarInt(v)` wrote gives `signInt(v)` with the offset just past it |
| BinaryVarInt.VarLongRoundTrip | vendor/pocketmine/binaryutils/src/Binary.php:457-512 | `readVarLong` of what `writeVarLong(v)` wrote gives `v` with the offset just past it |
| BinaryVarInt.Example300 | vendor/pocketmine/binaryutils/src/Binary.php:403-448 | 300 is written as `AC 02` and read back with the offset at 2 |
| BinaryVarInt.ExampleSmallSigned | vendor/pocketmine/binaryutils/src/Binary.php:423-426 | `writeVarInt` of 0, -1 and 1 is `00`, `01` and `02` |
| BinaryVarInt.ExampleWideVarInt | vendor/pocketmine/binaryutils/src/Binary.php:403-418 | `ff ff ff ff 7f` reads as 0x7ffffffff: the fifth byte's bits are not cut to 32 |
| BinaryVarInt.ExampleNoTerminator | vendor/pocketmine/binaryutils/src/Binary.php:403-418 | five continuation bytes throw "did not terminate" with the offset already advanced by five |
| BinaryVarInt.ExampleOffsets | vendor/pocketmine/binaryutils/src/Binary.php:403-418 | an empty buffer throws "No bytes left" at offset 0; offset -1 reads the last byte and ends at 0 |
| Colors.Color | vendor/pocketmine/color/src/Color.php:35-68 | the four channels the constructor stores, each typed to 0..255; the getters are its fields |
| Colors.Mask | vendor/pocketmine/color/src/Color.php:36-39 | `$x & 0xff` is the channel value congruent to x modulo 256, and x itself when x is a channel |
| Colors.NewColor | vendor/pocketmine/color/src/Color.php:35-40 | the constructor keeps the low eight bits of each argument, and keeps the arguments that are already channels |
| Colors.NewColorOpaque | vendor/pocketmine/color/src/Color.php:35 | alpha defaults to 0xff |
| Colors.ToARGB | vendor/pocketmine/color/src/Color.php:108-110 | the ARGB code lies in [0, 2^32) |
| Colors.ToRGBA | vendor/pocketmine/color/src/Color.php:122-124 | the RGBA code lies in [0, 2^32) |
| Colors.FromRGB | vendor/pocketmine/color/src/Color.php:94-96 | `fromRGB(c)` is opaque and its ARGB code is `0xff000000 \| (c & 0xffffff)` |
| Colors.FromARGB | vendor/pocketmine/color/src/Color.php:101-103 | `fromARGB(c)->toARGB() == c & 0xffffffff` for every c |
| Colors.FromRGBA | vendor/pocketmine/color/src/Color.php:115-117 | `fromRGBA(c)->toRGBA() == c & 0xffffffff` for every c |
| Colors.ARGBRoundTrip | vendor/pocketmine/color/src/Color.php:101-110 | `fromARGB(c->toARGB())` is `c` |
| Colors.RGBARoundTrip | vendor/pocketmine/color/src/Color.php:115-124 | `fromRGBA(c->toRGBA())` is `c` |
| Colors.Equals | vendor/pocketmine/color/src/Color.php:129-131 | all four channels match; `EqualsIsCodeEquality` states it is equality of colours and of ARGB codes, reflexive and symmetric |
| Colors.EqualsIsCodeEquality | vendor/pocketmine/color/src/Color.php:108-131 | `equals` holds exactly when all four channels match and exactly when the ARGB codes match; it is reflexive and symmetric |
| Colors.CodeExamples | vendor/pocketmine/color/src/Color.php:35-124 | red from 0xff0000, a code above 32 bits, and the constructor's truncation of -1, 256 and 0x1ff |
| Colors.MixOf | vendor/pocketmine/color/src/Color.php:75-89 | each channel of the mix is the truncated mean of that channel over all the colours |
| Colors.Mix | vendor/pocketmine/color/src/Color.php:75-89 | the loop computes `MixOf` of the extra colours followed by `$color1`, so the divisor is at least one |
| Colors.MixWithin | vendor/pocketmine/color/src/Color.php:75-89 | each channel of the mix lies between any lower and upper bound of that channel over the inputs |
| Colors.TotalPermutation | vendor/pocketmine/color/src/Color.php:79-86 | a channel's sum does not depend on the order of the colours |
| Colors.MixOrderIndependent | vendor/pocketmine/color/src/Color.php:75-89 | mixing a rearrangement of the colours gives the same colour |
| Colors.MixCopies | vendor/pocketmine/color/src/Color.php:75-89 | mixing any positive number of copies of one colour gives a colour `equals` to it |
| Colors.MixExample | vendor/pocketmine/color/src/Color.php:75-89 | black and white mix to the grey 0x7f, with intdiv rounding down |
| ErrorTypeNames.ERROR_STRINGS | vendor/pocketmine/errorhandler/src/ErrorTypeToStringMap.php:23-40 | the sixteen entries; `KnownLevels` states its keys, `GetErrorNames`/`GetWarningNames`/`GetOtherNames` its names and `NamesInjective` that no name repeats |
| ErrorTypeNames.LevelsArePowers | vendor/pocketmine/errorhandler/src/ErrorTypeToStringMap.php:25-39 | the fifteen `E_*` levels are the bits 2^0 to 2^14, in table order |
| ErrorTypeNames.LevelBits | vendor/pocketmine/errorhandler/src/ErrorTypeToStringMap.php:23-40 | every single bit 2^0 to 2^14 has a name |
| ErrorTypeNames.KnownLevels | vendor/pocketmine/errorhandler/src/ErrorTypeToStringMap.php:23-40 | a level has a name exactly when it is 0 or one of the bits 2^0 to 2^14 |
| ErrorTypeNames.Decimal | vendor/pocketmine/errorhandler/src/ErrorTypeToStringMap.php:53 | `"$errorType"` is non-empty and starts with '-' exactly for a negative level |
| ErrorTypeNames.DecimalRoundTrip | vendor/pocketmine/errorhandler/src/ErrorTypeToStringMap.php:53 | the number in the exception message reads back as the level |
| ErrorTypeNames.Get | vendor/pocketmine/errorhandler/src/ErrorTypeToStringMap.php:51-57 | `get` returns the table's name exactly for a level in the table, and otherwise throws "Invalid error type N" |
| ErrorTypeNames.GetErrorNames | vendor/pocketmine/errorhandler/src/ErrorTypeToStringMap.php:24-37 | 0 is "EXCEPTION", and each error level maps to its own name |
| ErrorTypeNames.GetWarningNames | vendor/pocketmine/errorhandler/src/ErrorTypeToStringMap.php:26-34 | each warning level maps to its own name |
| ErrorTypeNames.GetOtherNames | vendor/pocketmine/errorhandler/src/ErrorTypeToStringMap.php:27-39 | the parse, notice, strict and deprecation levels map to their own names |
| ErrorTypeNames.GetRejectsMask | vendor/pocketmine/errorhandler/src/ErrorTypeToStringMap.php:52-54 | the mask `E_ERROR \| E_WARNING` = 3 throws "Invalid error type 3" |
| ErrorTypeNames.GetRejectsNegative | vendor/pocketmine/errorhandler/src/ErrorTypeToStringMap.php:52-54 | -1 throws "Invalid error type -1" |
| ErrorTypeNames.GetRejectsOthers | vendor/pocketmine/errorhandler/src/ErrorTypeToStringMap.php:52-54 | `E_ALL` (32767) and 32768 throw |
| ErrorTypeNames.NamesInjective | vendor/pocketmine/errorhandler/src/ErrorTypeToStringMap.php:23-40 | distinct levels have distinct names |

## Left out

- The float and double codecs (`readFloat` to `printFloat`, vendor/pocketmine/binaryutils/src/Binary.php:267-349) are not modelled. They depend on IEEE-754 packing, `round()` and `sprintf` formatting.
- Binary.ReadBool requires a non-empty string. `readBool` has no length check, and on "" its result depends on PHP's warning for an uninitialised string offset.
- Binary.SafeUnpack does not model the `AssertionError` branch taken when `unpack()` returns false. That cannot happen after the length check.
- `pack` and `unpack` are PHP built-ins. They are modelled only for the six codes the codec uses, by the byte layout those codes define. `unpack`'s result array is reduced to its single element `[1]`.
- Binary.UnpackJ and Binary.UnpackP carry no contract of their own. Every 64-bit pattern is a valid result, and their meaning is stated by the round-trip lemmas beside them.
- Binary.ReadLong and Binary.ReadLLong state no range for their result. Every 64-bit pattern can be read.
- Binary.FlipShortEndianness, Binary.FlipIntEndianness and Binary.FlipLongEndianness carry no contract of their own. The byte-swap lemmas (`Flip*SwapsBytes`) state what they compute.
- BinaryVarInt.ZigZagDecode, BinaryVarInt.ZigZagEncode64 and BinaryVarInt.ZigZagEncode32 carry no contract of their own. They are characterised by the even/odd and sign-case lemmas and the two inverse lemmas.
- The exception messages of `BinaryDataException` are constructors, not strings. `NotEnoughBytes(need, have)` and `DidNotTerminate(maxBytes)` carry the numbers the messages print.
- Colors.Total, Colors.MixOf and Colors.Mix use unbounded integers for the channel sums. PHP's sums could overflow only past about 2^55 colours, which no argument list can reach.
- Colour codes are unbounded integers, not 64-bit words. For every 64-bit code, `x % 256` and `x / 2^n` agree with PHP's `&` and `>>`.
- `Color` object identity is not modelled. A colour is a value, and the getters are the datatype's fields.
- ErrorTypeNames.Get takes an unbounded integer, not a 64-bit one. The table and its rejections are the same within the 64-bit range.
- The private constructor of `ErrorTypeToStringMap` (vendor/pocketmine/errorhandler/src/ErrorTypeToStringMap.php:42-44) has no behaviour and is not modelled.

## Findings

| source | as written | input that shows it | evidently intended | confidence | as-written member | corrected member |
|---|---|---|---|---|---|---|
| vendor/pocketmine/binaryutils/src/Binary.php:219-221 | `readLTriad` unpacks "V" from the whole string followed by a zero byte, so from four or more bytes it reads the fourth byte into bits 24 to 31 | `01 02 03 04` reads as 0x04030201, outside the 24-bit range | read the first three bytes followed by the zero pad, giving 0x030201, as `readTriad` does for big-endian | not executed | Binary.LTriadReadsFourthByte | Binary.ReadLTriad |
