/**
 The frame codec generated for behaviors: a zero marker, a length and a payload, both
 numbers as unsigned LEB128 (section 7.6 of the DWARF Debugging Information Format Version 5)
 in 32-bit signed arithmetic.
 */
module FrameCodec {
  import opened Options

  newtype byte = x: int | 0 <= x < 0x100

  const I32_MAX := 0x7FFF_FFFF

  type i32 = x: int | -0x8000_0000 <= x <= 0x7FFF_FFFF

  const WORDS := 0x1_0000_0000

  /** The low 32 bits of an integer. */
  function Word(x: int): (low: nat)
    ensures low < WORDS
    decreases if x < 0 then WORDS - x else x
  {
    if x < 0 then Word(x + WORDS) else if x >= WORDS then Word(x - WORDS) else x
  }

  /** The 32-bit value that wrap-around arithmetic makes of an integer. */
  function Wrap(x: int): i32 {
    if Word(x) <= I32_MAX then Word(x) else Word(x) - WORDS
  }

  function Power2(exponent: nat): nat {
    if exponent == 0 then 1 else 2 * Power2(exponent - 1)
  }

  lemma SevenMore(exponent: nat)
    ensures Power2(exponent + 7) == 128 * Power2(exponent)
  {
    assert Power2(exponent + 7) == 2 * Power2(exponent + 6) == 4 * Power2(exponent + 5);
    assert Power2(exponent + 5) == 2 * Power2(exponent + 4) == 4 * Power2(exponent + 3);
    assert Power2(exponent + 3) == 2 * Power2(exponent + 2) == 4 * Power2(exponent + 1);
  }

  // ---------------------------------------------------------------- LEB128

  /** Seven bits a byte, least significant first, the top bit on all but the last. */
  function VarUInt(value: i32): (bytes: seq<byte>)
    ensures bytes != []
  {
    if value < 0x80 then [(value % 0x100) as byte]
    else [(value % 0x80 + 0x80) as byte] + VarUInt(value / 0x80)
  }

  /** The seven low bits. */
  function Septet(b: byte): nat {
    if b < 0x80 then b as int else b as int - 0x80
  }

  /** The number that bytes stand for, whatever their top bits. */
  function Value(bytes: seq<byte>): nat {
    if bytes == [] then 0 else Septet(bytes[0]) + 0x80 * Value(bytes[1..])
  }

  /** The bytes are one encoded number: the last one, and only the last, has its top bit clear. */
  predicate OneNumber(bytes: seq<byte>) {
    bytes != [] && bytes[|bytes| - 1] < 0x80 && forall i :: 0 <= i < |bytes| - 1 ==> bytes[i] >= 0x80
  }

  function ShiftLeft(x: nat, shift: nat): nat {
    if shift == 0 then x else 2 * ShiftLeft(x, shift - 1)
  }

  lemma ShiftSevenMore(x: nat, shift: nat)
    ensures ShiftLeft(x, shift + 7) == 128 * ShiftLeft(x, shift)
  {
    assert ShiftLeft(x, shift + 7) == 2 * ShiftLeft(x, shift + 6) == 4 * ShiftLeft(x, shift + 5);
    assert ShiftLeft(x, shift + 5) == 2 * ShiftLeft(x, shift + 4) == 4 * ShiftLeft(x, shift + 3);
    assert ShiftLeft(x, shift + 3) == 2 * ShiftLeft(x, shift + 2) == 4 * ShiftLeft(x, shift + 1);
  }

  lemma {:induction false} ValueOfAppend(bytes: seq<byte>, last: byte)
    ensures Value(bytes + [last]) == Value(bytes) + ShiftLeft(Septet(last), 7 * |bytes|)
  {
    if bytes == [] {
      assert [] + [last] == [last] && Value([]) == 0;
    } else {
      assert (bytes + [last])[1..] == bytes[1..] + [last];
      ValueOfAppend(bytes[1..], last);
      ShiftSevenMore(Septet(last), 7 * |bytes[1..]|);
    }
  }

  lemma Septets(value: i32) returns (rest: i32, septet: nat)
    requires value >= 0x80
    ensures value == 0x80 * rest + septet && septet < 0x80 && 0 < rest < value
    ensures VarUInt(value) == [(septet + 0x80) as byte] + VarUInt(rest)
  {
    rest, septet := value / 0x80, value % 0x80;
  }

  lemma LongerNumber(low: byte, rest: seq<byte>)
    requires OneNumber(rest) && low >= 0x80
    ensures OneNumber([low] + rest) && Value([low] + rest) == Septet(low) + 0x80 * Value(rest)
  {
    assert ([low] + rest)[1..] == rest;
    forall i | 0 <= i < |[low] + rest| - 1
      ensures ([low] + rest)[i] >= 0x80
    {
      assert i > 0 ==> ([low] + rest)[i] == rest[i - 1];
    }
  }

  lemma LastSeptet(low: byte)
    requires low < 0x80
    ensures OneNumber([low]) && Value([low]) == low as int
  {
    assert Value([low][1..]) == 0;
  }

  /** Writing and reading a number are inverse. */
  lemma {:induction false} VarUIntHasValue(value: i32)
    requires value >= 0
    ensures OneNumber(VarUInt(value)) && Value(VarUInt(value)) == value
  {
    if value >= 0x80 {
      var rest, septet := Septets(value);
      VarUIntHasValue(rest);
      FrontByte(VarUInt(value), (septet + 0x80) as byte, VarUInt(rest), rest);
    } else {
      LastSeptet(value as byte);
      assert VarUInt(value) == [value as byte];
    }
  }

  lemma FrontByte(bytes: seq<byte>, low: byte, rest: seq<byte>, value: nat)
    requires OneNumber(rest) && Value(rest) == value && low >= 0x80 && bytes == [low] + rest
    ensures OneNumber(bytes) && Value(bytes) == Septet(low) + 0x80 * value
  {
    LongerNumber(low, rest);
  }

  lemma {:induction false} ValueFits(bytes: seq<byte>)
    ensures Value(bytes) < Power2(7 * |bytes|)
  {
    if bytes != [] {
      ValueFits(bytes[1..]);
      SevenMore(7 * |bytes[1..]|);
    }
  }

  lemma {:induction false} VarUIntNeedsAll(value: i32)
    requires value >= 0x80
    ensures value >= Power2(7 * (|VarUInt(value)| - 1))
  {
    var rest := VarUInt(value / 0x80);
    SevenMore(7 * (|rest| - 1));
    if value / 0x80 >= 0x80 {
      VarUIntNeedsAll(value / 0x80);
    } else {
      assert |rest| == 1 && Power2(0) == 1;
    }
  }

  lemma {:induction false} Power2Grows(a: nat, b: nat)
    requires a <= b
    ensures Power2(a) <= Power2(b)
  {
    if a < b {
      Power2Grows(a, b - 1);
    }
  }

  /** No other bytes for the same number are fewer. */
  lemma VarUIntIsShortest(value: i32, bytes: seq<byte>)
    requires value >= 0 && OneNumber(bytes) && Value(bytes) == value
    ensures |VarUInt(value)| <= |bytes|
  {
    ValueFits(bytes);
    if value >= 0x80 {
      VarUIntNeedsAll(value);
      if |bytes| < |VarUInt(value)| {
        Power2Grows(7 * |bytes|, 7 * (|VarUInt(value)| - 1));
      }
    }
  }

  /** A 32-bit number takes at most five bytes. */
  lemma FiveBytesSuffice(value: i32)
    ensures |VarUInt(value)| <= 5
  {
    if value >= 0x80 {
      VarUIntNeedsAll(value);
      SevenMore(0);
      SevenMore(7);
      SevenMore(14);
      SevenMore(21);
      SevenMore(28);
      if |VarUInt(value)| > 5 {
        Power2Grows(35, 7 * (|VarUInt(value)| - 1));
      }
    }
  }

  // ---------------------------------------------------------------- the reader and the writer

  /** How many bytes from `start` on make up one number: at most five, and all before `len`. */
  function NumberLength(bytes: seq<byte>, len: nat, start: nat, seen: nat): (n: Option<nat>)
    requires len <= |bytes|
    ensures n.Some? ==> seen < n.value <= 5 && start + n.value - seen <= len
    decreases 5 - seen
  {
    if seen >= 5 || start >= len then None
    else if bytes[start] < 0x80 then Some(seen + 1)
    else NumberLength(bytes, len, start + 1, seen + 1)
  }

  /** That is exactly where an encoded number stands. */
  lemma {:induction false} NumberLengthFindsNumber(bytes: seq<byte>, len: nat, start: nat, seen: nat, n: nat)
    requires len <= |bytes| && start <= len && seen < n <= 5
    ensures NumberLength(bytes, len, start, seen) == Some(n) <==>
              start + n - seen <= len && OneNumber(bytes[start..start + n - seen])
    decreases 5 - seen
  {
    if start < len {
      if bytes[start] < 0x80 {
        OnlyLastIsClear(bytes, len, start, n - seen);
      } else if seen + 1 < n {
        NumberLengthFindsNumber(bytes, len, start + 1, seen + 1, n);
        if start + n - seen <= len {
          OneNumberGoesOn(bytes[start..start + n - seen]);
          assert bytes[start..start + n - seen][1..] == bytes[start + 1..start + n - seen];
        }
      }
    }
  }

  lemma OnlyLastIsClear(bytes: seq<byte>, len: nat, start: nat, n: nat)
    requires start < len <= |bytes| && bytes[start] < 0x80 && n > 0
    ensures start + n <= len && OneNumber(bytes[start..start + n]) <==> n == 1
  {
    if start + n <= len {
      assert bytes[start..start + n][0] == bytes[start];
    }
  }

  lemma OneNumberGoesOn(bytes: seq<byte>)
    requires |bytes| > 1 && bytes[0] >= 0x80
    ensures OneNumber(bytes) <==> OneNumber(bytes[1..])
  {
    if OneNumber(bytes[1..]) {
      forall i | 0 <= i < |bytes| - 1
        ensures bytes[i] >= 0x80
      {
        assert i > 0 ==> bytes[i] == bytes[1..][i - 1];
      }
    }
  }

  /** Bitwise or of two bit patterns. */
  function Or(a: nat, b: nat): nat {
    if a == 0 then b else (if a % 2 == 1 || b % 2 == 1 then 1 else 0) + 2 * Or(a / 2, b / 2)
  }

  predicate Bit(n: nat, i: nat) {
    if i == 0 then n % 2 == 1 else Bit(n / 2, i - 1)
  }

  lemma {:induction false} ZeroHasNoBit(i: nat)
    ensures !Bit(0, i)
  {
    if i > 0 {
      ZeroHasNoBit(i - 1);
    }
  }

  /** Numbers with the same bits are the same. */
  lemma {:induction false} BitsTellNumbers(a: nat, b: nat)
    requires forall i: nat :: Bit(a, i) <==> Bit(b, i)
    ensures a == b
  {
    assert Bit(a, 0) <==> Bit(b, 0);
    if a != 0 || b != 0 {
      forall i: nat
        ensures Bit(a / 2, i) <==> Bit(b / 2, i)
      {
        assert Bit(a, i + 1) <==> Bit(b, i + 1);
      }
      BitsTellNumbers(a / 2, b / 2);
    }
  }

  /** A bit is set in the result exactly when it is set in either number. */
  lemma {:induction false} OrSetsBits(a: nat, b: nat, i: nat)
    ensures Bit(Or(a, b), i) <==> Bit(a, i) || Bit(b, i)
    decreases i
  {
    if a == 0 {
      ZeroHasNoBit(i);
    } else {
      var low := if a % 2 == 1 || b % 2 == 1 then 1 else 0;
      assert Or(a, b) % 2 == low && Or(a, b) / 2 == Or(a / 2, b / 2);
      if i > 0 {
        OrSetsBits(a / 2, b / 2, i - 1);
      }
    }
  }

  /** `result |= shifted` on 32 bits. */
  function OrWords(result: i32, shifted: nat): i32 {
    Wrap(Or(Word(result), Word(shifted)))
  }

  /** Bits above all of the other number's are added. */
  lemma {:induction false} OrAddsAbove(low: nat, high: nat, shift: nat)
    requires low < Power2(shift)
    ensures Or(low, ShiftLeft(high, shift)) == low + ShiftLeft(high, shift)
  {
    if low != 0 {
      OrAddsAbove(low / 2, high, shift - 1);
    }
  }

  lemma ThirtyTwoBits()
    ensures Power2(28) == 0x1000_0000 && Power2(32) == WORDS
  {
    SevenMore(21);
    SevenMore(14);
    SevenMore(7);
    SevenMore(0);
    assert Power2(32) == 2 * Power2(31) == 4 * Power2(30) == 8 * Power2(29) == 16 * Power2(28);
  }

  lemma {:induction false} WordIs(x: nat, lost: nat, low: nat)
    requires x == lost * WORDS + low && low < WORDS
    ensures Word(x) == low
  {
    if lost > 0 {
      WordIs(x - WORDS, lost - 1, low);
    }
  }

  lemma {:induction false} WrapDrops(x: nat, lost: nat)
    ensures Wrap(lost * WORDS + x) == Wrap(x)
  {
    if lost > 0 {
      WrapDrops(x, lost - 1);
    }
  }

  lemma WrapKeeps(x: nat)
    requires x <= I32_MAX
    ensures Wrap(x) == x && Word(x) == x
  {
  }

  lemma {:induction false} ShiftedFits(septet: nat, shift: nat)
    requires septet < 0x80
    ensures ShiftLeft(septet, shift) < Power2(shift + 7)
  {
    if shift > 0 {
      ShiftedFits(septet, shift - 1);
    } else {
      SevenMore(0);
    }
  }

  /** Of the fifth seven bits four are kept, of the others all. */
  lemma CutShifted(septet: nat, count: nat) returns (cut: nat, lost: nat)
    requires septet < 0x80 && count <= 4
    ensures ShiftLeft(septet, 7 * count) == lost * WORDS + ShiftLeft(cut, 7 * count)
    ensures ShiftLeft(cut, 7 * count) < WORDS
  {
    ThirtyTwoBits();
    if count < 4 {
      cut, lost := septet, 0;
      ShiftedFits(septet, 7 * count);
      Power2Grows(7 * count + 7, 28);
    } else {
      cut, lost := septet % 16, septet / 16;
      ShiftTwentyEight(septet);
      ShiftTwentyEight(cut);
    }
  }

  lemma ShiftTwentyEight(x: nat)
    ensures ShiftLeft(x, 28) == 0x1000_0000 * x
  {
    ShiftSevenMore(x, 21);
    ShiftSevenMore(x, 14);
    ShiftSevenMore(x, 7);
    ShiftSevenMore(x, 0);
  }

  lemma OrWithinWord(read: nat, shifted: nat, lost: nat, high: nat)
    requires read <= I32_MAX && shifted == lost * WORDS + high && high < WORDS
    requires Or(read, high) == read + high
    ensures OrWords(Wrap(read), shifted) == Wrap(read + shifted)
  {
    assert Word(shifted) == high by {
      WordIs(shifted, lost, high);
    }
    assert Word(Wrap(read)) == read by {
      WrapKeeps(read);
    }
    assert Wrap(read + shifted) == Wrap(read + high) by {
      WrapDrops(read + high, lost);
      assert lost * WORDS + (read + high) == read + shifted;
    }
  }

  /** Seven more bits do not overlap those read, so or-ing them in adds them, up to wrap-around. */
  lemma OrAddsSeptet(read: nat, septet: nat, count: nat)
    requires read < Power2(7 * count) && septet < 0x80 && count <= 4
    ensures OrWords(Wrap(read), ShiftLeft(septet, 7 * count)) == Wrap(read + ShiftLeft(septet, 7 * count))
  {
    var cut, lost := CutShifted(septet, count);
    var high := ShiftLeft(cut, 7 * count);
    assert Or(read, high) == read + high by {
      OrAddsAbove(read, cut, 7 * count);
    }
    assert read <= I32_MAX by {
      Power2Grows(7 * count, 28);
      ThirtyTwoBits();
    }
    OrWithinWord(read, ShiftLeft(septet, 7 * count), lost, high);
  }

  /** What reading a number gives: its 32-bit value and where it ends, or -1 and the end of the message. */
  function NumberRead(bytes: seq<byte>, len: nat, start: nat): (r: (i32, nat))
    requires len <= |bytes|
    ensures r.1 <= len
  {
    match NumberLength(bytes, len, start, 0)
    case Some(n) => (Wrap(Value(bytes[start..start + n])), start + n)
    case None => (-1, len)
  }

  lemma ValueSoFar(bytes: seq<byte>, start: nat, offset: nat)
    requires start <= offset < |bytes|
    ensures Value(bytes[start..offset]) < Power2(7 * (offset - start))
    ensures Value(bytes[start..offset + 1]) ==
            Value(bytes[start..offset]) + ShiftLeft(Septet(bytes[offset]), 7 * (offset - start))
  {
    ValueFits(bytes[start..offset]);
    ValueOfAppend(bytes[start..offset], bytes[offset]);
    assert bytes[start..offset + 1] == bytes[start..offset] + [bytes[offset]];
  }

  method ReadVarUInt(bytes: seq<byte>, len: nat, startOffset: nat) returns (value: i32, nextOffset: nat)
    requires startOffset <= len <= |bytes|
    ensures (value, nextOffset) == NumberRead(bytes, len, startOffset) && startOffset <= nextOffset <= len
  {
    var result: i32, shift: nat, offset := 0, 0, startOffset;
    ghost var read := 0;
    assert bytes[startOffset..startOffset] == [];
    while offset < len && shift < 35
      invariant startOffset <= offset <= len && shift == 7 * (offset - startOffset) <= 35
      invariant NumberLength(bytes, len, startOffset, 0) == NumberLength(bytes, len, offset, offset - startOffset)
      invariant read == Value(bytes[startOffset..offset]) && result == Wrap(read)
    {
      var b := bytes[offset];
      ValueSoFar(bytes, startOffset, offset);
      OrAddsSeptet(read, Septet(b), offset - startOffset);
      result := OrWords(result, ShiftLeft(Septet(b), shift));
      read := read + ShiftLeft(Septet(b), shift);
      offset := offset + 1;
      if b < 0x80 {
        return result, offset;
      }
      shift := shift + 7;
    }
    return -1, len;
  }

  method EncodedVarUIntLength(value: i32) returns (length: nat)
    ensures length == |VarUInt(value)|
  {
    var remaining := value;
    length := 1;
    while remaining >= 0x80
      invariant length - 1 + |VarUInt(remaining)| == |VarUInt(value)|
      decreases remaining
    {
      remaining := remaining / 0x80;
      length := length + 1;
    }
  }

  /** The byte written comes off the front of what is left. */
  lemma VarUIntLeft(written: seq<byte>, remaining: i32)
    requires remaining >= 0x80
    ensures written + VarUInt(remaining) == (written + [(remaining % 0x80 + 0x80) as byte]) + VarUInt(remaining / 0x80)
    ensures |VarUInt(remaining)| == 1 + |VarUInt(remaining / 0x80)|
  {
  }

  method WriteVarUInt(buffer: array<byte>, offset: nat, value: i32) returns (next: nat)
    requires offset + |VarUInt(value)| <= buffer.Length
    modifies buffer
    ensures next == offset + |VarUInt(value)| && buffer[offset..next] == VarUInt(value)
    ensures forall i :: 0 <= i < buffer.Length && !(offset <= i < next) ==> buffer[i] == old(buffer[i])
  {
    var remaining, currentOffset := value, offset;
    while remaining >= 0x80
      invariant offset <= currentOffset && currentOffset + |VarUInt(remaining)| <= buffer.Length
      invariant buffer[offset..currentOffset] + VarUInt(remaining) == VarUInt(value)
      invariant forall i :: 0 <= i < buffer.Length && !(offset <= i < currentOffset) ==> buffer[i] == old(buffer[i])
      decreases remaining
    {
      var low := (remaining % 0x80 + 0x80) as byte;
      ghost var written := buffer[offset..currentOffset];
      buffer[currentOffset] := low;
      assert buffer[offset..currentOffset + 1] == written + [low];
      VarUIntLeft(written, remaining);
      remaining := remaining / 0x80;
      currentOffset := currentOffset + 1;
    }
    buffer[currentOffset] := (remaining % 0x100) as byte;
    assert buffer[offset..currentOffset + 1] == buffer[offset..currentOffset] + [buffer[currentOffset]];
    return currentOffset + 1;
  }

  // ---------------------------------------------------------------- frames

  function Frame(payload: seq<byte>): seq<byte>
    requires |payload| <= I32_MAX
  {
    VarUInt(0) + VarUInt(|payload|) + payload
  }

  method EncodePostcardJsonFrame(payload: seq<byte>) returns (out: array<byte>)
    requires |payload| <= I32_MAX && |Frame(payload)| <= I32_MAX
    ensures fresh(out) && out[..] == Frame(payload)
  {
    var zeroLen := EncodedVarUIntLength(0);
    var lengthLen := EncodedVarUIntLength(|payload|);
    var headerLen := zeroLen + lengthLen;
    out := new byte[headerLen + |payload|](_ => 0);
    var first := WriteVarUInt(out, 0, 0);
    var offset := WriteVarUInt(out, first, |payload|);
    ghost var head := out[..offset];
    assert head == out[0..first] + out[first..offset] == VarUInt(0) + VarUInt(|payload|);
    CopyBytes(out, offset, payload);
    assert out[..] == out[..offset] + out[offset..] == head + payload;
  }

  /** `memory.copy`. */
  method CopyBytes(buffer: array<byte>, offset: nat, bytes: seq<byte>)
    requires offset + |bytes| == buffer.Length
    modifies buffer
    ensures buffer[..offset] == old(buffer[..offset]) && buffer[offset..] == bytes
  {
    for i := 0 to |bytes|
      invariant forall j :: 0 <= j < offset ==> buffer[j] == old(buffer[j])
      invariant forall j :: 0 <= j < i ==> buffer[offset + j] == bytes[j]
    {
      buffer[offset + i] := bytes[i];
    }
  }

  datatype Decoded = Payload(bytes: seq<byte>) | UnsupportedEncoding | InvalidLength | OutOfRange

  /** What decoding gives; `OutOfRange` stands for a read past the end of the message. */
  function FrameRead(bytes: seq<byte>, len: nat): Decoded
    requires len <= |bytes|
  {
    var (encoding, offset) := NumberRead(bytes, len, 0);
    if encoding != 0 then UnsupportedEncoding
    else
      var (payloadLen, start) := NumberRead(bytes, len, offset);
      PayloadRead(bytes, len, start, payloadLen)
  }

  function PayloadRead(bytes: seq<byte>, len: nat, start: nat, payloadLen: i32): Decoded
    requires start <= len <= |bytes|
  {
    if payloadLen < 0 || Wrap(start + payloadLen) > len then InvalidLength
    else if start + payloadLen <= len then Payload(bytes[start..start + payloadLen])
    else OutOfRange
  }

  lemma PayloadOutcome(bytes: seq<byte>, len: nat, start: nat, payloadLen: i32)
    requires start <= len <= |bytes| && len <= I32_MAX && payloadLen >= 0
    ensures PayloadRead(bytes, len, start, payloadLen) ==
            if start + payloadLen <= len then Payload(bytes[start..start + payloadLen])
            else if start + payloadLen <= I32_MAX then InvalidLength
            else OutOfRange
  {
  }

  method DecodePostcardJsonFrame(bytes: seq<byte>, len: nat) returns (decoded: Decoded)
    requires len <= |bytes| && len <= I32_MAX
    ensures decoded == FrameRead(bytes, len)
  {
    var encoding, offset := ReadVarUInt(bytes, len, 0);
    if encoding != 0 {
      return UnsupportedEncoding;
    }
    var payloadLen, start := ReadVarUInt(bytes, len, offset);
    if payloadLen < 0 || Wrap(start + payloadLen) > len {
      return InvalidLength;
    }
    return if start + payloadLen <= len then Payload(bytes[start..start + payloadLen]) else OutOfRange;
  }

  // ---------------------------------------------------------------- which messages decode to what

  ghost predicate NumberAt(bytes: seq<byte>, len: nat, start: nat, n: nat) {
    0 < n <= 5 && start + n <= len <= |bytes| && OneNumber(bytes[start..start + n])
  }

  /** A number of `n` bytes stands at `start` and reads as this value in 32-bit arithmetic. */
  ghost predicate ReadsAt(bytes: seq<byte>, len: nat, start: nat, n: nat, value: int) {
    NumberAt(bytes, len, start, n) && Wrap(Value(bytes[start..start + n])) == value
  }

  /** The message starts with a number of `m` bytes that reads as zero. */
  ghost predicate Marked(bytes: seq<byte>, len: nat, m: nat) {
    ReadsAt(bytes, len, 0, m, 0)
  }

  /** A number of `n` bytes that reads as the payload length `p` follows. */
  ghost predicate Sized(bytes: seq<byte>, len: nat, m: nat, n: nat, p: nat) {
    ReadsAt(bytes, len, m, n, p)
  }

  lemma ReadsAtIsRead(bytes: seq<byte>, len: nat, start: nat, n: nat, value: int)
    requires ReadsAt(bytes, len, start, n, value)
    ensures NumberRead(bytes, len, start) == (value, start + n)
  {
    NumberLengthFindsNumber(bytes, len, start, 0, n);
  }

  lemma ReadIsThere(bytes: seq<byte>, len: nat, start: nat) returns (n: nat)
    requires start <= len <= |bytes| && NumberRead(bytes, len, start).0 >= 0
    ensures ReadsAt(bytes, len, start, n, NumberRead(bytes, len, start).0)
    ensures NumberRead(bytes, len, start).1 == start + n
  {
    n := NumberLength(bytes, len, start, 0).value;
    NumberLengthFindsNumber(bytes, len, start, 0, n);
  }

  lemma MarkerIsThere(bytes: seq<byte>, len: nat) returns (m: nat)
    requires len <= |bytes| && NumberRead(bytes, len, 0).0 == 0
    ensures Marked(bytes, len, m) && NumberRead(bytes, len, 0).1 == m
  {
    m := ReadIsThere(bytes, len, 0);
  }

  /** The marker is refused exactly when no number at the start reads as zero. */
  lemma UnsupportedIff(bytes: seq<byte>, len: nat)
    requires len <= |bytes| && len <= I32_MAX
    ensures FrameRead(bytes, len) == UnsupportedEncoding <==> forall m :: !Marked(bytes, len, m)
  {
    if m :| Marked(bytes, len, m) {
      ReadsAtIsRead(bytes, len, 0, m, 0);
    }
    if NumberRead(bytes, len, 0).0 == 0 {
      var m := MarkerIsThere(bytes, len);
    }
  }

  lemma NumbersAreRead(bytes: seq<byte>, len: nat, m: nat, n: nat, p: nat)
    requires len <= |bytes| && NumberRead(bytes, len, 0) == (0, m) && NumberRead(bytes, len, m) == (p, m + n)
    requires m + n <= len
    ensures FrameRead(bytes, len) == PayloadRead(bytes, len, m + n, p)
  {
  }

  /** With both numbers there, the sum the length test computes decides, and it wraps around. */
  lemma SizedOutcome(bytes: seq<byte>, len: nat, m: nat, n: nat, p: nat)
    requires len <= I32_MAX && Marked(bytes, len, m) && Sized(bytes, len, m, n, p)
    ensures FrameRead(bytes, len) ==
            if m + n + p <= len then Payload(bytes[m + n..m + n + p])
            else if m + n + p <= I32_MAX then InvalidLength
            else OutOfRange
  {
    assert FrameRead(bytes, len) == PayloadRead(bytes, len, m + n, p) by {
      ReadsAtIsRead(bytes, len, 0, m, 0);
      ReadsAtIsRead(bytes, len, m, n, p);
      NumbersAreRead(bytes, len, m, n, p);
    }
    PayloadOutcome(bytes, len, m + n, p);
  }

  lemma OutcomeIsSized(bytes: seq<byte>, len: nat) returns (m: nat, n: nat, p: nat)
    requires len <= |bytes| && len <= I32_MAX && (FrameRead(bytes, len).Payload? || FrameRead(bytes, len).OutOfRange?)
    ensures Marked(bytes, len, m) && Sized(bytes, len, m, n, p)
  {
    m := MarkerIsThere(bytes, len);
    n := ReadIsThere(bytes, len, m);
    p := NumberRead(bytes, len, m).0;
  }

  /** After a zero of `m` bytes and its length in `n` bytes, the payload stands in the message. */
  ghost predicate Carries(bytes: seq<byte>, len: nat, m: nat, n: nat, payload: seq<byte>) {
    Marked(bytes, len, m) && Sized(bytes, len, m, n, |payload|) && m + n + |payload| <= len &&
    bytes[m + n..m + n + |payload|] == payload
  }

  /** A message decodes to a payload exactly when it carries it. */
  lemma DecodesToIff(bytes: seq<byte>, len: nat, payload: seq<byte>)
    requires len <= |bytes| && len <= I32_MAX
    ensures FrameRead(bytes, len) == Payload(payload) <==> exists m: nat, n: nat :: Carries(bytes, len, m, n, payload)
  {
    if FrameRead(bytes, len) == Payload(payload) {
      var m, n := DecodedIsCarried(bytes, len, payload);
    }
    if m: nat, n: nat :| Carries(bytes, len, m, n, payload) {
      SizedOutcome(bytes, len, m, n, |payload|);
    }
  }

  lemma DecodedIsCarried(bytes: seq<byte>, len: nat, payload: seq<byte>) returns (m: nat, n: nat)
    requires len <= |bytes| && len <= I32_MAX && FrameRead(bytes, len) == Payload(payload)
    ensures Carries(bytes, len, m, n, payload)
  {
    var p;
    m, n, p := OutcomeIsSized(bytes, len);
    SizedOutcome(bytes, len, m, n, p);
  }

  /** The decoder reads past the end of the message exactly when the end of the payload is beyond 32-bit numbers. */
  lemma OutOfRangeIff(bytes: seq<byte>, len: nat)
    requires len <= |bytes| && len <= I32_MAX
    ensures FrameRead(bytes, len) == OutOfRange <==>
            exists m: nat, n: nat, p: nat :: Marked(bytes, len, m) && Sized(bytes, len, m, n, p) && m + n + p > I32_MAX
  {
    if FrameRead(bytes, len) == OutOfRange {
      var m, n, p := OutcomeIsSized(bytes, len);
      SizedOutcome(bytes, len, m, n, p);
    }
    if m: nat, n: nat, p: nat :| Marked(bytes, len, m) && Sized(bytes, len, m, n, p) && m + n + p > I32_MAX {
      SizedOutcome(bytes, len, m, n, p);
    }
  }

  /**
   The length is refused exactly when every length read there ends the payload past the message but within 32-bit
   numbers.
   */
  lemma InvalidLengthIff(bytes: seq<byte>, len: nat)
    requires len <= |bytes| && len <= I32_MAX
    ensures FrameRead(bytes, len) == InvalidLength <==>
            (exists m :: Marked(bytes, len, m)) &&
            forall m: nat, n: nat, p: nat :: Marked(bytes, len, m) && Sized(bytes, len, m, n, p) ==>
              len < m + n + p <= I32_MAX
  {
    UnsupportedIff(bytes, len);
    forall m: nat, n: nat, p: nat | Marked(bytes, len, m) && Sized(bytes, len, m, n, p)
      ensures FrameRead(bytes, len) == InvalidLength <==> len < m + n + p <= I32_MAX
    {
      SizedOutcome(bytes, len, m, n, p);
    }
    if FrameRead(bytes, len).Payload? || FrameRead(bytes, len).OutOfRange? {
      var m, n, p := OutcomeIsSized(bytes, len);
    }
  }

  /** A message read past its end: the largest length there is. */
  lemma LargestLengthIsOutOfRange()
    ensures FrameRead([0, 0xFF, 0xFF, 0xFF, 0xFF, 0x07], 6) == OutOfRange
  {
    var bytes: seq<byte> := [0, 0xFF, 0xFF, 0xFF, 0xFF, 0x07];
    LastSeptet(0);
    StandsAt(bytes, 0, [0], 0);
    LargestLength();
    StandsAt(bytes, 1, [0xFF, 0xFF, 0xFF, 0xFF, 0x07], I32_MAX);
    SizedOutcome(bytes, 6, 1, 5, I32_MAX);
  }

  lemma LargestLength()
    ensures OneNumber([0xFF, 0xFF, 0xFF, 0xFF, 0x07]) && Value([0xFF, 0xFF, 0xFF, 0xFF, 0x07]) == I32_MAX
  {
    LastSeptet(0x07);
    FrontByte([0xFF, 0x07], 0xFF, [0x07], 7);
    FrontByte([0xFF, 0xFF, 0x07], 0xFF, [0xFF, 0x07], 0x3FF);
    FrontByte([0xFF, 0xFF, 0xFF, 0x07], 0xFF, [0xFF, 0xFF, 0x07], 0x1_FFFF);
    FrontByte([0xFF, 0xFF, 0xFF, 0xFF, 0x07], 0xFF, [0xFF, 0xFF, 0xFF, 0x07], 0xFF_FFFF);
  }

  /** A number standing in a message is read there. */
  lemma StandsAt(bytes: seq<byte>, start: nat, number: seq<byte>, value: i32)
    requires OneNumber(number) && |number| <= 5 && Value(number) == value
    requires start + |number| <= |bytes| && bytes[start..start + |number|] == number
    ensures ReadsAt(bytes, |bytes|, start, |number|, value)
  {
    WrapKeeps(value);
  }

  /**
   The length test tells payloads that fit from others as long as the sum it computes stays within 32 bits, and not
   beyond.
   */
  lemma LengthTestIsExactIffNoWrap(bytes: seq<byte>, len: nat, m: nat, n: nat, p: nat)
    requires len <= I32_MAX && Marked(bytes, len, m) && Sized(bytes, len, m, n, p)
    ensures (FrameRead(bytes, len) == InvalidLength <==> m + n + p > len) <==> m + n + p <= I32_MAX
  {
    SizedOutcome(bytes, len, m, n, p);
  }

  lemma EncodedNumber(value: i32)
    requires value >= 0
    ensures OneNumber(VarUInt(value)) && Value(VarUInt(value)) == value && |VarUInt(value)| <= 5
  {
    VarUIntHasValue(value);
    FiveBytesSuffice(value);
  }

  lemma ThreePieces(a: seq<byte>, b: seq<byte>, c: seq<byte>)
    ensures var all := a + b + c;
            all[0..|a|] == a && all[|a|..|a| + |b|] == b && all[|a| + |b|..|a| + |b| + |c|] == c
  {
  }

  lemma FramePieces(marker: seq<byte>, length: seq<byte>, payload: seq<byte>)
    requires OneNumber(marker) && |marker| <= 5 && Value(marker) == 0
    requires OneNumber(length) && |length| <= 5 && Value(length) == |payload| <= I32_MAX
    ensures Carries(marker + length + payload, |marker + length + payload|, |marker|, |length|, payload)
  {
    ThreePieces(marker, length, payload);
    StandsAt(marker + length + payload, 0, marker, 0);
    StandsAt(marker + length + payload, |marker|, length, |payload|);
  }

  /** Decoding an encoded frame gives the payload back, for every payload whose frame a 32-bit length can describe. */
  lemma DecodeInvertsEncode(payload: seq<byte>)
    requires |payload| <= I32_MAX && |Frame(payload)| <= I32_MAX
    ensures FrameRead(Frame(payload), |Frame(payload)|) == Payload(payload)
  {
    EncodedNumber(0);
    EncodedNumber(|payload|);
    FramePieces(VarUInt(0), VarUInt(|payload|), payload);
    DecodesToIff(Frame(payload), |Frame(payload)|, payload);
  }
}
