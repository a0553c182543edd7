/**
 * Variable-length part of the binary primitive codec: the base-128 varints
 * of the Protocol Buffers wire format ("Base 128 Varints" in its Encoding
 * guide), seven bits per byte, least significant group first, bit 0x80 set
 * on every byte but the last; and the ZigZag mapping of signed values onto
 * unsigned ones ("Signed Integers" in the same guide).
 *
 * The readers and writers are loops, as in the source; each is proved equal
 * to a function that takes the same steps (`ReadGroups`, `EncodeGroups`),
 * and the lemmas state what those functions guarantee: how far the cursor
 * moves and why a read fails, which values a writer can encode, the shape
 * of an encoding, and that reading an encoding gives the value back.
 */
module BinaryVarInt {
  import opened Results
  import opened Php
  import opened Binary

  /** How many bytes the 32-bit and the 64-bit reader and writer handle at most. */
  const VARINT_MAX_BYTES: nat := 5
  const VARLONG_MAX_BYTES: nat := 10

  /** The last shift the 32-bit and the 64-bit reader apply, 7 * (max bytes - 1). */
  const VARINT_LAST_SHIFT: int := 28
  const VARLONG_LAST_SHIFT: int := 63

  // ---------------------------------------------------------------------------
  // Word helpers
  // ---------------------------------------------------------------------------

  /** PHP's `$x | $y`, kept as a function so that proofs can rewrite its operands. */
  function Or(x: Int, y: Int): Int {
    x | y
  }

  /** `|` is associative. */
  lemma OrAssoc(a: Int, x: Int, y: Int)
    ensures Or(Or(a, x), y) == Or(a, Or(x, y))
  {
  }

  /** `$x << 1`, kept as a function so that proofs can rewrite its operand. */
  function Double(x: Int): Int {
    x << 1
  }

  /**
   * PHP's `$x << $i` for a shift below 64: the bits shifted past bit 63 are
   * lost. It is written as `i` single-bit shifts, so that no proof has to turn
   * the integer `i` into a bit-vector shift amount.
   */
  function Shl(x: Int, i: int): Int
    requires 0 <= i <= 63
  {
    if i == 0 then x else Double(Shl(x, i - 1))
  }

  /** A single-bit shift distributes over `|`. */
  lemma DoubleOr(a: Int, b: Int)
    ensures Or(Double(a), Double(b)) == Double(Or(a, b))
  {
  }

  /** Seven single-bit shifts are one shift by seven. */
  lemma DoubleSeven(y: Int)
    ensures Double(Double(Double(Double(Double(Double(Double(y))))))) == y << 7
  {
  }

  /** `Shl` by seven is the shift by the literal seven. */
  lemma ShlSeven(y: Int)
    ensures Shl(y, 7) == y << 7
  {
    var y0 := Shl(y, 0);
    var y1 := Shl(y, 1);
    var y2 := Shl(y, 2);
    var y3 := Shl(y, 3);
    var y4 := Shl(y, 4);
    var y5 := Shl(y, 5);
    var y6 := Shl(y, 6);
    assert y0 == y;
    assert y1 == Double(y0);
    assert y2 == Double(y1);
    assert y3 == Double(y2);
    assert y4 == Double(y3);
    assert y5 == Double(y4);
    assert y6 == Double(y5);
    assert Shl(y, 7) == Double(y6);
    DoubleSeven(y);
  }

  /**
   * At each shift a reader uses but the last, a value is its low group at that
   * shift together with the rest of it one group further up.
   */
  lemma {:induction false} GroupSplit(x: Int, i: int)
    requires 0 <= i <= 56
    ensures Or(Shl(x & 0x7f, i), Shl(x >> 7, i + 7)) == Shl(x, i)
  {
    if i == 0 {
      ShlSeven(x >> 7);
      assert (x & 0x7f) | ((x >> 7) << 7) == x;
    } else {
      GroupSplit(x, i - 1);
      DoubleOr(Shl(x & 0x7f, i - 1), Shl(x >> 7, i + 6));
    }
  }

  /** PHP's `$x >> 7`, an arithmetic shift: it is zero exactly when the logical shift is. */
  function Sar7(x: Int): (r: Int)
    ensures r == 0 <==> x >> 7 == 0
  {
    var m: Int := if x < SIGN_BIT then 0 else 0xFFFF_FFFF_FFFF_FFFF;
    ((x ^ m) >> 7) ^ m
  }

  /**
   * `($remaining >> 7) & (PHP_INT_MAX >> 6)`: PHP's arithmetic shift with the
   * seven copied sign bits masked off again, which is a logical shift.
   */
  function ShiftOutGroup(remaining: Int): (r: Int)
    ensures r == remaining >> 7
  {
    Sar7(remaining) & (INT_MAX >> 6)
  }

  // ---------------------------------------------------------------------------
  // Unsigned varints: reading
  // ---------------------------------------------------------------------------

  /** Whether a byte says that another one follows. */
  predicate Continues(b: Byte) {
    b & 0x80 != 0
  }

  /** Every byte of `s` in [from, to) has its continuation bit set. */
  predicate AllContinue(s: Bytes, from: int, to: int)
    requires 0 <= from && to <= |s|
  {
    forall j :: from <= j < to ==> Continues(s[j])
  }

  /** What a reader returns or throws, and where it leaves the by-reference offset. */
  datatype ReadOutcome = ReadOutcome(result: Result<Int, BinaryDataError>, offset: int)

  /** `$value |= (($b & 0x7f) << $i)`: the low seven bits of byte `b` placed at shift `i`. */
  function Place(value: Int, b: Int, i: int): Int
    requires 0 <= i <= 63
  {
    Or(value, Shl(b & 0x7f, i))
  }

  /**
   * The steps of `readUnsignedVarInt` / `readUnsignedVarLong` from shift `i` on,
   * with `value` read so far: give up with "did not terminate" once `i` passes
   * `lastShift`; stop with "No bytes left in buffer" when the offset is not a
   * valid string offset; otherwise take the byte, put its low seven bits at
   * `i`, and stop after the first byte without the continuation bit.
   * `maxBytes` only appears in the error.
   */
  function ReadGroups(buffer: Bytes, offset: int, value: Int, i: int, lastShift: int, maxBytes: nat): ReadOutcome
    requires 0 <= i <= lastShift + 7 && lastShift <= 63
    decreases lastShift + 7 - i
  {
    if i > lastShift then ReadOutcome(Failure(DidNotTerminate(maxBytes)), offset)
    else
      match StringOffset(buffer, offset)
      case None => ReadOutcome(Failure(NoBytesLeft), offset)
      case Some(c) =>
        var b := Ord(c);
        var v := Place(value, b, i);
        if b & 0x80 == 0 then ReadOutcome(Success(v), offset + 1)
        else ReadGroups(buffer, offset + 1, v, i + 7, lastShift, maxBytes)
  }

  /**
   * The loop shared by both readers: `lastShift` is the largest `$i` (28 or 63)
   * and `maxBytes` the number of bytes that gives (5 or 10).
   */
  method ReadUnsigned(buffer: Bytes, offset: int, lastShift: int, maxBytes: nat)
    returns (r: Result<Int, BinaryDataError>, newOffset: int)
    requires 0 <= lastShift <= 63
    ensures ReadOutcome(r, newOffset) == ReadGroups(buffer, offset, 0, 0, lastShift, maxBytes)
  {
    var value: Int := 0;
    newOffset := offset;
    var i := 0;
    while i <= lastShift
      invariant 0 <= i <= lastShift + 7
      invariant ReadGroups(buffer, newOffset, value, i, lastShift, maxBytes) == ReadGroups(buffer, offset, 0, 0, lastShift, maxBytes)
      decreases lastShift + 7 - i
    {
      var c := StringOffset(buffer, newOffset);
      if c.None? {
        return Failure(NoBytesLeft), newOffset;
      }
      var b := Ord(c.value);
      newOffset := newOffset + 1;
      value := Place(value, b, i);
      if b & 0x80 == 0 {
        return Success(value), newOffset;
      }
      i := i + 7;
    }
    r := Failure(DidNotTerminate(maxBytes));
  }

  /** `readUnsignedVarInt`: at most five bytes, shifts 0 to 28. */
  method ReadUnsignedVarInt(buffer: Bytes, offset: int) returns (r: Result<Int, BinaryDataError>, newOffset: int)
    ensures ReadOutcome(r, newOffset) == ReadGroups(buffer, offset, 0, 0, VARINT_LAST_SHIFT, VARINT_MAX_BYTES)
  {
    r, newOffset := ReadUnsigned(buffer, offset, VARINT_LAST_SHIFT, VARINT_MAX_BYTES);
  }

  /** `readUnsignedVarLong`: at most ten bytes, shifts 0 to 63. */
  method ReadUnsignedVarLong(buffer: Bytes, offset: int) returns (r: Result<Int, BinaryDataError>, newOffset: int)
    ensures ReadOutcome(r, newOffset) == ReadGroups(buffer, offset, 0, 0, VARLONG_LAST_SHIFT, VARLONG_MAX_BYTES)
  {
    r, newOffset := ReadUnsigned(buffer, offset, VARLONG_LAST_SHIFT, VARLONG_MAX_BYTES);
  }

  // ---------------------------------------------------------------------------
  // Unsigned varints: writing
  // ---------------------------------------------------------------------------

  /** `p` in front of the bytes of `o`, if there are any. */
  function Prefixed(p: Bytes, o: Option<Bytes>): Option<Bytes> {
    match o
    case None => None
    case Some(t) => Some(p + t)
  }

  /**
   * The steps of `writeUnsignedVarInt` / `writeUnsignedVarLong` with `budget`
   * iterations left: `None` is the "Value too large" exception. While
   * something is left above the low group, the byte carries the low group and
   * the continuation bit (`chr` keeps the low eight bits of `$remaining |
   * 0x80`) and the rest moves down a group; the last byte carries the low
   * group alone. The writer's arithmetic shifts are stated here as the logical
   * shifts `Sar7` and `ShiftOutGroup` amount to.
   */
  function EncodeGroups(remaining: Int, budget: nat): Option<Bytes>
    decreases budget
  {
    if budget == 0 then None
    else if remaining >> 7 != 0 then Prefixed([Chr(remaining | 0x80)], EncodeGroups(remaining >> 7, budget - 1))
    else Some([Chr(remaining & 0x7f)])
  }

  /** The loop shared by both writers; `budget` is the iteration count (5 or 10). */
  method WriteUnsigned(value: Int, budget: nat) returns (r: Option<Bytes>)
    ensures r == EncodeGroups(value, budget)
  {
    var buf: Bytes := [];
    var remaining := value;
    var i: nat := 0;
    PrefixedEmpty(EncodeGroups(value, budget));
    while i < budget
      invariant i <= budget
      invariant Prefixed(buf, EncodeGroups(remaining, budget - i)) == EncodeGroups(value, budget)
    {
      if Sar7(remaining) != 0 {
        PrefixedTwice(buf, [Chr(remaining | 0x80)], EncodeGroups(ShiftOutGroup(remaining), budget - i - 1));
        buf := buf + [Chr(remaining | 0x80)];
      } else {
        buf := buf + [Chr(remaining & 0x7f)];
        return Some(buf);
      }
      remaining := ShiftOutGroup(remaining);
      i := i + 1;
    }
    return None;
  }

  /** An empty prefix changes nothing. */
  lemma PrefixedEmpty(o: Option<Bytes>)
    ensures Prefixed([], o) == o
  {
    if o.Some? {
      assert [] + o.value == o.value;
    }
  }

  /** Two prefixes in a row are their concatenation. */
  lemma PrefixedTwice(p: Bytes, q: Bytes, o: Option<Bytes>)
    ensures Prefixed(p, Prefixed(q, o)) == Prefixed(p + q, o)
  {
    if o.Some? {
      assert p + (q + o.value) == (p + q) + o.value;
    }
  }

  /**
   * Five iterations write exactly the values of at most 35 bits, so every
   * 32-bit value: `writeUnsignedVarInt` never throws.
   */
  lemma VarIntFits(value: Int)
    ensures EncodeGroups(value, VARINT_MAX_BYTES).Some? <==> value <= 0x7_ffff_ffff
  {
  }

  /** Ten iterations write every 64-bit value: `writeUnsignedVarLong` never throws. */
  lemma VarLongFits(value: Int)
    ensures EncodeGroups(value, VARLONG_MAX_BYTES).Some?
  {
  }

  /** `writeUnsignedVarInt`: the low 32 bits, which always fit in five bytes. */
  method WriteUnsignedVarInt(value: Int) returns (s: Bytes)
    ensures EncodeGroups(value & 0xffff_ffff, VARINT_MAX_BYTES) == Some(s)
  {
    VarIntFits(value & 0xffff_ffff);
    var r := WriteUnsigned(value & 0xffff_ffff, VARINT_MAX_BYTES);
    s := r.value;
  }

  /** `writeUnsignedVarLong`: all 64 bits, which always fit in ten bytes. */
  method WriteUnsignedVarLong(value: Int) returns (s: Bytes)
    ensures EncodeGroups(value, VARLONG_MAX_BYTES) == Some(s)
  {
    VarLongFits(value);
    var r := WriteUnsigned(value, VARLONG_MAX_BYTES);
    s := r.value;
  }

  /**
   * An encoding has between one and `budget` bytes; every byte but the last
   * has the continuation bit and the last one has not.
   */
  lemma {:induction false} EncodeGroupsShape(remaining: Int, budget: nat)
    ensures match EncodeGroups(remaining, budget)
            case None => true
            case Some(s) => 1 <= |s| <= budget && !Continues(s[|s| - 1]) && AllContinue(s, 0, |s| - 1)
    decreases budget
  {
    if budget >= 1 && remaining >> 7 != 0 {
      EncodeGroupsShape(remaining >> 7, budget - 1);
    }
  }

  /**
   * An encoding is the shortest one: a last byte of zero only when it is the
   * only byte. `remaining` is not zero below the first byte.
   */
  lemma {:induction false} EncodeGroupsShortest(remaining: Int, budget: nat)
    ensures match EncodeGroups(remaining, budget)
            case None => true
            case Some(s) => |s| == 1 || s[|s| - 1] != 0
    decreases budget
  {
    if budget >= 1 && remaining >> 7 != 0 {
      var rest := remaining >> 7;
      EncodeGroupsShortest(rest, budget - 1);
      if budget >= 2 && rest >> 7 == 0 {
        assert EncodeGroups(rest, budget - 1) == Some([Chr(rest & 0x7f)]);
        assert rest != 0 && rest <= 0x7f;
      }
    }
  }

  // ---------------------------------------------------------------------------
  // How a read ends
  // ---------------------------------------------------------------------------

  /** How many bytes a read from shift `i` takes at most before it gives up. */
  function Steps(i: int, lastShift: int): nat
    requires i <= lastShift + 7
    decreases lastShift + 7 - i
  {
    if i > lastShift then 0 else 1 + Steps(i + 7, lastShift)
  }

  /** A 32-bit read takes at most five bytes and a 64-bit one at most ten. */
  lemma StepsOfReaders()
    ensures Steps(0, VARINT_LAST_SHIFT) == VARINT_MAX_BYTES
    ensures Steps(0, VARLONG_LAST_SHIFT) == VARLONG_MAX_BYTES
  {
  }

  /** A byte with the continuation bit set hands the read on to the next shift. */
  lemma ReadContinuing(buffer: Bytes, offset: int, value: Int, i: int, lastShift: int, maxBytes: nat)
    requires 0 <= offset < |buffer| && Continues(buffer[offset]) && 0 <= i <= lastShift <= 63
    ensures ReadGroups(buffer, offset, value, i, lastShift, maxBytes)
            == ReadGroups(buffer, offset + 1, Place(value, Ord(buffer[offset]), i), i + 7, lastShift, maxBytes)
  {
  }

  /** A byte without the continuation bit ends the read with what has been placed. */
  lemma ReadLast(buffer: Bytes, offset: int, value: Int, i: int, lastShift: int, maxBytes: nat)
    requires 0 <= offset < |buffer| && !Continues(buffer[offset]) && 0 <= i <= lastShift <= 63
    ensures ReadGroups(buffer, offset, value, i, lastShift, maxBytes)
            == ReadOutcome(Success(Place(value, Ord(buffer[offset]), i)), offset + 1)
  {
  }

  /** A continuation byte in front of bytes that all continue. */
  lemma AllContinueCons(s: Bytes, from: int, to: int)
    requires 0 <= from < to <= |s|
    requires Continues(s[from]) && AllContinue(s, from + 1, to)
    ensures AllContinue(s, from, to)
  {
  }

  /**
   * How a read from `offset` ends when at most `left` more bytes are allowed:
   * it succeeds right after the first byte without the continuation bit, it
   * fails with "No bytes left" at the end of the buffer, or it fails with "did
   * not terminate" after exactly `left` bytes, and every byte it passed over
   * has the continuation bit.
   */
  predicate EndsAsDescribed(buffer: Bytes, offset: int, o: ReadOutcome, left: nat, maxBytes: nat)
    requires 0 <= offset <= |buffer|
  {
    match o.result
    case Success(_) =>
      offset < o.offset <= offset + left && o.offset <= |buffer|
      && AllContinue(buffer, offset, o.offset - 1) && !Continues(buffer[o.offset - 1])
    case Failure(e) =>
      offset <= o.offset <= |buffer| && AllContinue(buffer, offset, o.offset)
      && ((e == NoBytesLeft && o.offset == |buffer| && o.offset <= offset + left)
          || (e == DidNotTerminate(maxBytes) && o.offset == offset + left))
  }

  /** A read from a non-negative offset ends as described. */
  lemma {:induction false} ReadGroupsEnds(buffer: Bytes, offset: int, value: Int, i: int, lastShift: int, maxBytes: nat)
    requires 0 <= offset <= |buffer|
    requires 0 <= i <= lastShift + 7 && lastShift <= 63
    ensures EndsAsDescribed(buffer, offset, ReadGroups(buffer, offset, value, i, lastShift, maxBytes), Steps(i, lastShift), maxBytes)
    decreases lastShift + 7 - i
  {
    if i <= lastShift && offset < |buffer| && Continues(buffer[offset]) {
      var o := ReadGroups(buffer, offset + 1, Place(value, Ord(buffer[offset]), i), i + 7, lastShift, maxBytes);
      ReadGroupsEnds(buffer, offset + 1, Place(value, Ord(buffer[offset]), i), i + 7, lastShift, maxBytes);
      assert ReadGroups(buffer, offset, value, i, lastShift, maxBytes) == o;
      if o.result.Success? {
        if offset + 1 < o.offset - 1 {
          AllContinueCons(buffer, offset, o.offset - 1);
        }
      } else {
        AllContinueCons(buffer, offset, o.offset);
      }
    }
  }

  /** How `readUnsignedVarInt` ends, from a non-negative offset: within five bytes. */
  lemma ReadUnsignedVarIntEnds(buffer: Bytes, offset: int)
    requires 0 <= offset <= |buffer|
    ensures EndsAsDescribed(buffer, offset, ReadGroups(buffer, offset, 0, 0, VARINT_LAST_SHIFT, VARINT_MAX_BYTES),
                            VARINT_MAX_BYTES, VARINT_MAX_BYTES)
  {
    ReadGroupsEnds(buffer, offset, 0, 0, VARINT_LAST_SHIFT, VARINT_MAX_BYTES);
    StepsOfReaders();
  }

  /** How `readUnsignedVarLong` ends, from a non-negative offset: within ten bytes. */
  lemma ReadUnsignedVarLongEnds(buffer: Bytes, offset: int)
    requires 0 <= offset <= |buffer|
    ensures EndsAsDescribed(buffer, offset, ReadGroups(buffer, offset, 0, 0, VARLONG_LAST_SHIFT, VARLONG_MAX_BYTES),
                            VARLONG_MAX_BYTES, VARLONG_MAX_BYTES)
  {
    ReadGroupsEnds(buffer, offset, 0, 0, VARLONG_LAST_SHIFT, VARLONG_MAX_BYTES);
    StepsOfReaders();
  }

  // ---------------------------------------------------------------------------
  // Round trips of the unsigned codec
  // ---------------------------------------------------------------------------

  /**
   * Reading back a byte written for a continuing group places its group, and
   * the rest of the value one group up completes the value.
   */
  lemma PlaceContinued(acc: Int, remaining: Int, i: int)
    requires 0 <= i <= 56 && i % 7 == 0
    ensures Ord(Chr(remaining | 0x80)) & 0x80 != 0
    ensures Or(Place(acc, Ord(Chr(remaining | 0x80)), i), Shl(remaining >> 7, i + 7)) == Or(acc, Shl(remaining, i))
  {
    assert Ord(Chr(remaining | 0x80)) & 0x7f == remaining & 0x7f;
    GroupSplit(remaining, i);
    OrAssoc(acc, Shl(remaining & 0x7f, i), Shl(remaining >> 7, i + 7));
  }

  /** Reading back the last byte written places the whole rest of the value. */
  lemma PlaceFinal(acc: Int, remaining: Int, i: int)
    requires remaining >> 7 == 0 && 0 <= i <= 63
    ensures Ord(Chr(remaining & 0x7f)) & 0x80 == 0
    ensures Place(acc, Ord(Chr(remaining & 0x7f)), i) == Or(acc, Shl(remaining, i))
  {
    assert Ord(Chr(remaining & 0x7f)) & 0x7f == remaining;
  }

  /** A read from scratch at shift 0 gives the value itself. */
  lemma FromScratch(value: Int)
    ensures Or(0, Shl(value, 0)) == value
  {
  }

  /** The value a read puts together from the bytes `s`, from shift `i` on. */
  function Assemble(value: Int, s: Bytes, i: int): Int
    requires 0 <= i && i + 7 * (|s| - 1) <= 63
    decreases |s|
  {
    if |s| == 0 then value else Assemble(Place(value, Ord(s[0]), i), s[1..], i + 7)
  }

  /**
   * A read meeting a complete encoding `s` (continuation bits on all bytes but
   * the last) within its allowance assembles exactly those bytes and stops
   * right after them, whatever follows.
   */
  lemma {:induction false} ReadComplete(buffer: Bytes, offset: int, value: Int, i: int, lastShift: int, maxBytes: nat, s: Bytes)
    requires 0 <= offset && offset + |s| <= |buffer| && buffer[offset..offset + |s|] == s
    requires 1 <= |s| && AllContinue(s, 0, |s| - 1) && !Continues(s[|s| - 1])
    requires 0 <= i && i + 7 * (|s| - 1) <= lastShift <= 63
    ensures ReadGroups(buffer, offset, value, i, lastShift, maxBytes) == ReadOutcome(Success(Assemble(value, s, i)), offset + |s|)
    decreases |s|
  {
    assert buffer[offset] == s[0];
    if |s| == 1 {
      ReadLast(buffer, offset, value, i, lastShift, maxBytes);
    } else {
      var t := s[1..];
      assert buffer[offset + 1..offset + 1 + |t|] == t;
      assert Continues(s[0]);
      ReadContinuing(buffer, offset, value, i, lastShift, maxBytes);
      ReadComplete(buffer, offset + 1, Place(value, Ord(s[0]), i), i + 7, lastShift, maxBytes, t);
    }
  }

  /**
   * Putting together the encoding of `remaining` from shift `i` on adds
   * `remaining << i` to the value so far.
   */
  lemma {:induction false} AssembleEncoded(value: Int, remaining: Int, budget: nat, i: int)
    requires EncodeGroups(remaining, budget).Some?
    requires 0 <= i && i % 7 == 0 && i + 7 * (|EncodeGroups(remaining, budget).value| - 1) <= 63
    ensures Assemble(value, EncodeGroups(remaining, budget).value, i) == Or(value, Shl(remaining, i))
    decreases budget
  {
    var s := EncodeGroups(remaining, budget).value;
    if remaining >> 7 != 0 {
      var t := EncodeGroups(remaining >> 7, budget - 1).value;
      assert s == [Chr(remaining | 0x80)] + t;
      assert s[1..] == t;
      EncodeGroupsShape(remaining >> 7, budget - 1);
      PlaceContinued(value, remaining, i);
      AssembleEncoded(Place(value, Ord(s[0]), i), remaining >> 7, budget - 1, i + 7);
    } else {
      assert s == [Chr(remaining & 0x7f)];
      PlaceFinal(value, remaining, i);
    }
  }

  /**
   * `readUnsignedVarInt` on what `writeUnsignedVarInt` wrote gives back the
   * low 32 bits and leaves the offset just past the encoding.
   */
  lemma UnsignedVarIntRoundTrip(value: Int, before: Bytes, after: Bytes)
    ensures EncodeGroups(value & 0xffff_ffff, VARINT_MAX_BYTES).Some?
    ensures var s := EncodeGroups(value & 0xffff_ffff, VARINT_MAX_BYTES).value;
            ReadGroups(before + s + after, |before|, 0, 0, VARINT_LAST_SHIFT, VARINT_MAX_BYTES)
            == ReadOutcome(Success(value & 0xffff_ffff), |before| + |s|)
  {
    VarIntFits(value & 0xffff_ffff);
    var s := EncodeGroups(value & 0xffff_ffff, VARINT_MAX_BYTES).value;
    assert (before + s + after)[|before|..|before| + |s|] == s;
    EncodeGroupsShape(value & 0xffff_ffff, VARINT_MAX_BYTES);
    ReadComplete(before + s + after, |before|, 0, 0, VARINT_LAST_SHIFT, VARINT_MAX_BYTES, s);
    AssembleEncoded(0, value & 0xffff_ffff, VARINT_MAX_BYTES, 0);
    FromScratch(value & 0xffff_ffff);
  }

  /**
   * `readUnsignedVarLong` on what `writeUnsignedVarLong` wrote gives back the
   * value and leaves the offset just past the encoding.
   */
  lemma UnsignedVarLongRoundTrip(value: Int, before: Bytes, after: Bytes)
    ensures EncodeGroups(value, VARLONG_MAX_BYTES).Some?
    ensures var s := EncodeGroups(value, VARLONG_MAX_BYTES).value;
            ReadGroups(before + s + after, |before|, 0, 0, VARLONG_LAST_SHIFT, VARLONG_MAX_BYTES)
            == ReadOutcome(Success(value), |before| + |s|)
  {
    VarLongFits(value);
    var s := EncodeGroups(value, VARLONG_MAX_BYTES).value;
    assert (before + s + after)[|before|..|before| + |s|] == s;
    EncodeGroupsShape(value, VARLONG_MAX_BYTES);
    ReadComplete(before + s + after, |before|, 0, 0, VARLONG_LAST_SHIFT, VARLONG_MAX_BYTES, s);
    AssembleEncoded(0, value, VARLONG_MAX_BYTES, 0);
    FromScratch(value);
  }

  // ---------------------------------------------------------------------------
  // ZigZag
  // ---------------------------------------------------------------------------

  /**
   * The ZigZag decoding of `readVarInt` / `readVarLong`:
   * `$temp = ((($raw << 63) >> 63) ^ $raw) >> 1; $temp ^ ($raw & (1 << 63))`
   * with PHP's arithmetic `>>`. Each arithmetic shift `$x >> k` is written
   * `((x ^ f) >> k) ^ f` with the sign fill `f = 0 - (x >> 63)`, all ones for
   * a negative word and zero otherwise.
   */
  function ZigZagDecode(raw: Int): Int
  {
    var y := raw << 63;
    var x := (((y ^ (0 - (y >> 63))) >> 63) ^ (0 - (y >> 63))) ^ raw;
    var temp := ((x ^ (0 - (x >> 63))) >> 1) ^ (0 - (x >> 63));
    temp ^ (raw & (1 << 63))
  }

  /** An even code decodes to itself shifted down a bit (logically). */
  lemma ZigZagDecodeEven(raw: Int)
    requires raw & 1 == 0
    ensures ZigZagDecode(raw) == raw >> 1
  {
  }

  /** An odd code decodes to the complement of itself shifted down a bit. */
  lemma ZigZagDecodeOdd(raw: Int)
    requires raw & 1 == 1
    ensures ZigZagDecode(raw) == !(raw >> 1)
  {
  }

  /** The ZigZag encoding of `writeVarLong`: `($v << 1) ^ ($v >> 63)`. */
  function ZigZagEncode64(v: Int): Int
  {
    (v << 1) ^ (((v ^ (0 - (v >> 63))) >> 63) ^ (0 - (v >> 63)))
  }

  /** A non-negative value moves up a bit, so its code is even. */
  lemma ZigZagEncodeNonNegative(v: Int)
    requires v < SIGN_BIT
    ensures ZigZagEncode64(v) == v << 1
  {
  }

  /** A negative value moves up a bit and is complemented, so its code is odd. */
  lemma ZigZagEncodeNegative(v: Int)
    requires v >= SIGN_BIT
    ensures ZigZagEncode64(v) == !(v << 1)
  {
  }

  /**
   * The ZigZag encoding of `writeVarInt`: the value is first cut to its low
   * 32 bits and sign-extended (`$v << 32 >> 32`), then encoded by
   * `ZigZagEncode32Step`.
   */
  function ZigZagEncode32(v: Int): Int
  {
    ZigZagEncode32Step(SignInt(v))
  }

  /** `($v << 1) ^ ($v >> 31)` on the sign-extended value. */
  function ZigZagEncode32Step(x: Int): Int
  {
    (x << 1) ^ (((x ^ (0 - (x >> 63))) >> 31) ^ (0 - (x >> 63)))
  }

  /** A non-negative 32-bit value moves up a bit; the code is even and fits in 32 bits. */
  lemma ZigZagEncode32NonNegative(x: Int)
    requires x <= 0x7fff_ffff
    ensures ZigZagEncode32Step(x) == x << 1
    ensures ZigZagEncode32Step(x) <= 0xffff_fffe
  {
  }

  /** A negative 32-bit value moves up a bit and is complemented; the code fits in 32 bits. */
  lemma ZigZagEncode32Negative(x: Int)
    requires x >= 0xFFFF_FFFF_8000_0000
    ensures ZigZagEncode32Step(x) == !(x << 1)
    ensures ZigZagEncode32Step(x) <= 0xffff_ffff
  {
  }

  /**
   * The 32-bit code is the 64-bit code of the sign-extended value, and it
   * fits in 32 bits, as `writeUnsignedVarInt` needs.
   */
  lemma ZigZagEncode32Is64(v: Int)
    ensures ZigZagEncode32(v) == ZigZagEncode64(SignInt(v))
    ensures ZigZagEncode32(v) <= 0xffff_ffff
  {
    var x := SignInt(v);
    if x < SIGN_BIT {
      ZigZagEncode32NonNegative(x);
      ZigZagEncodeNonNegative(x);
    } else {
      ZigZagEncode32Negative(x);
      ZigZagEncodeNegative(x);
    }
  }

  /** Decoding undoes the encoding. */
  lemma ZigZagDecodeEncode(v: Int)
    ensures ZigZagDecode(ZigZagEncode64(v)) == v
  {
    if v < SIGN_BIT {
      ZigZagEncodeNonNegative(v);
      ZigZagDecodeEven(v << 1);
    } else {
      ZigZagEncodeNegative(v);
      ZigZagDecodeOdd(!(v << 1));
    }
  }

  /** Encoding undoes the decoding: ZigZag is a bijection on 64-bit words. */
  lemma ZigZagEncodeDecode(raw: Int)
    ensures ZigZagEncode64(ZigZagDecode(raw)) == raw
  {
    if raw & 1 == 0 {
      ZigZagDecodeEven(raw);
      ZigZagEncodeNonNegative(raw >> 1);
    } else {
      ZigZagDecodeOdd(raw);
      ZigZagEncodeNegative(!(raw >> 1));
    }
  }

  /**
   * Small magnitudes get small codes: 0, -1, 1, -2, 2, ... are numbered
   * 0, 1, 2, 3, 4, ... and the extremes of the 64-bit range come last.
   */
  lemma ZigZagOrder()
    ensures ZigZagEncode64(0) == 0 && ZigZagEncode64(-1) == 1 && ZigZagEncode64(1) == 2
    ensures ZigZagEncode64(-2) == 3 && ZigZagEncode64(2) == 4
    ensures ZigZagEncode64(INT_MAX) == 0xFFFF_FFFF_FFFF_FFFE && ZigZagEncode64(SIGN_BIT) == 0xFFFF_FFFF_FFFF_FFFF
  {
  }

  /** What a signed reader makes of the unsigned reader's outcome; errors pass through. */
  function ZigZagOutcome(o: ReadOutcome): (d: ReadOutcome)
    ensures d.offset == o.offset
    ensures d.result.Success? <==> o.result.Success?
    ensures o.result.Failure? ==> d.result == o.result
    ensures o.result.Success? ==> d.result.value == ZigZagDecode(o.result.value)
  {
    match o.result
    case Success(raw) => ReadOutcome(Success(ZigZagDecode(raw)), o.offset)
    case Failure(e) => o
  }

  /** `readVarInt`: the unsigned 32-bit read, ZigZag-decoded. */
  method ReadVarInt(buffer: Bytes, offset: int) returns (r: Result<Int, BinaryDataError>, newOffset: int)
    ensures ReadOutcome(r, newOffset) == ZigZagOutcome(ReadGroups(buffer, offset, 0, 0, VARINT_LAST_SHIFT, VARINT_MAX_BYTES))
  {
    var raw;
    raw, newOffset := ReadUnsignedVarInt(buffer, offset);
    r := if raw.Success? then Success(ZigZagDecode(raw.value)) else raw;
  }

  /** `readVarLong`: the unsigned 64-bit read, ZigZag-decoded. */
  method ReadVarLong(buffer: Bytes, offset: int) returns (r: Result<Int, BinaryDataError>, newOffset: int)
    ensures ReadOutcome(r, newOffset) == ZigZagOutcome(ReadGroups(buffer, offset, 0, 0, VARLONG_LAST_SHIFT, VARLONG_MAX_BYTES))
  {
    var raw;
    raw, newOffset := ReadUnsignedVarLong(buffer, offset);
    r := if raw.Success? then Success(ZigZagDecode(raw.value)) else raw;
  }

  /** `writeVarInt`: the 32-bit ZigZag code, written unsigned. */
  method WriteVarInt(v: Int) returns (s: Bytes)
    ensures EncodeGroups(ZigZagEncode32(v), VARINT_MAX_BYTES) == Some(s)
  {
    var code := ZigZagEncode32(v);
    ZigZagEncode32Is64(v);
    assert code & 0xffff_ffff == code;
    s := WriteUnsignedVarInt(code);
  }

  /** `writeVarLong`: the 64-bit ZigZag code, written unsigned. */
  method WriteVarLong(v: Int) returns (s: Bytes)
    ensures EncodeGroups(ZigZagEncode64(v), VARLONG_MAX_BYTES) == Some(s)
  {
    s := WriteUnsignedVarLong(ZigZagEncode64(v));
  }

  /**
   * `readVarInt` on what `writeVarInt` wrote gives back the value cut to 32
   * bits and sign-extended, and leaves the offset just past the encoding.
   */
  lemma VarIntRoundTrip(v: Int, before: Bytes, after: Bytes)
    ensures EncodeGroups(ZigZagEncode32(v), VARINT_MAX_BYTES).Some?
    ensures var s := EncodeGroups(ZigZagEncode32(v), VARINT_MAX_BYTES).value;
            ZigZagOutcome(ReadGroups(before + s + after, |before|, 0, 0, VARINT_LAST_SHIFT, VARINT_MAX_BYTES))
            == ReadOutcome(Success(SignInt(v)), |before| + |s|)
  {
    var code := ZigZagEncode32(v);
    ZigZagEncode32Is64(v);
    assert code & 0xffff_ffff == code;
    UnsignedVarIntRoundTrip(code, before, after);
    ZigZagDecodeEncode(SignInt(v));
  }

  /**
   * `readVarLong` on what `writeVarLong` wrote gives back the value and
   * leaves the offset just past the encoding.
   */
  lemma VarLongRoundTrip(v: Int, before: Bytes, after: Bytes)
    ensures EncodeGroups(ZigZagEncode64(v), VARLONG_MAX_BYTES).Some?
    ensures var s := EncodeGroups(ZigZagEncode64(v), VARLONG_MAX_BYTES).value;
            ZigZagOutcome(ReadGroups(before + s + after, |before|, 0, 0, VARLONG_LAST_SHIFT, VARLONG_MAX_BYTES))
            == ReadOutcome(Success(v), |before| + |s|)
  {
    UnsignedVarLongRoundTrip(ZigZagEncode64(v), before, after);
    ZigZagDecodeEncode(v);
  }

  // ---------------------------------------------------------------------------
  // Worked examples
  // ---------------------------------------------------------------------------

  /** 300 is written as 0xAC 0x02 and read back, leaving the offset past both bytes. */
  lemma Example300()
    ensures EncodeGroups(300, VARINT_MAX_BYTES) == Some([0xAC, 0x02])
    ensures ReadGroups([0xAC, 0x02], 0, 0, 0, VARINT_LAST_SHIFT, VARINT_MAX_BYTES) == ReadOutcome(Success(300), 2)
  {
    assert EncodeGroups(2, VARINT_MAX_BYTES - 1) == Some([0x02]);
    assert Chr(300 | 0x80) == 0xAC;
    var two: Bytes := [0x02];
    assert [0xAC] + two == [0xAC, 0x02];
  }

  /** 0, -1 and 1 are written by `writeVarInt` as the single bytes 0, 1 and 2. */
  lemma ExampleSmallSigned()
    ensures EncodeGroups(ZigZagEncode32(0), VARINT_MAX_BYTES) == Some([0])
    ensures EncodeGroups(ZigZagEncode32(-1), VARINT_MAX_BYTES) == Some([1])
    ensures EncodeGroups(ZigZagEncode32(1), VARINT_MAX_BYTES) == Some([2])
  {
  }

  /**
   * `readUnsignedVarInt` keeps all 35 bits of five bytes: the result is not
   * cut to 32 bits.
   */
  lemma ExampleWideVarInt()
    ensures ReadGroups([0xff, 0xff, 0xff, 0xff, 0x7f], 0, 0, 0, VARINT_LAST_SHIFT, VARINT_MAX_BYTES)
            == ReadOutcome(Success(0x7_ffff_ffff), 5)
  {
    assert Shl(0x7f, 7) == 0x3f80;
    assert Shl(0x7f, 14) == 0x1f_c000;
    assert Shl(0x7f, 21) == 0xfe0_0000;
    assert Shl(0x7f, 28) == 0x7_f000_0000;
  }

  /** Five bytes that all ask for more make `readUnsignedVarInt` give up after the fifth. */
  lemma ExampleNoTerminator()
    ensures ReadGroups([0xff, 0xff, 0xff, 0xff, 0xff, 0x00], 0, 0, 0, VARINT_LAST_SHIFT, VARINT_MAX_BYTES)
            == ReadOutcome(Failure(DidNotTerminate(5)), 5)
  {
  }

  /** An empty buffer has no bytes left; a negative offset counts from the end. */
  lemma ExampleOffsets()
    ensures ReadGroups([], 0, 0, 0, VARINT_LAST_SHIFT, VARINT_MAX_BYTES) == ReadOutcome(Failure(NoBytesLeft), 0)
    ensures ReadGroups([0x05, 0x01], -1, 0, 0, VARINT_LAST_SHIFT, VARINT_MAX_BYTES) == ReadOutcome(Success(1), 0)
  {
  }
}
