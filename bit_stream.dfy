/** The bit stream of src/bit_stream.rs: a writer that appends bits, least
    significant first, into a growing vector of 64-bit words, and a reader with a
    forward-only cursor over a copy of those words. */
module BitStream {
  import opened Wrappers
  import opened Bits

  /** The writer's state invariant: exactly one word per started group of 64
      bits (`ceil(bit_position / 64)` words), and no bit at or past the cursor
      is set. */
  predicate WriterInvariant(buffer: seq<bv64>, bitPosition: nat)
  {
    && |buffer| == (bitPosition + 63) / 64
    && forall i | bitPosition <= i < 64 * |buffer| :: !BufferBit(buffer, i)
  }

  /** What a reader made from a writer sees: the written bits, then the zeros
      that fill the last word (fewer than 64 of them). */
  lemma WrittenStream(buffer: seq<bv64>, bitPosition: nat)
    requires WriterInvariant(buffer, bitPosition)
    ensures bitPosition <= 64 * |buffer| < bitPosition + 64
    ensures Stream(buffer) == Unpack(buffer, bitPosition) + Zeros(64 * |buffer| - bitPosition)
  {
    var s, t := Stream(buffer), Unpack(buffer, bitPosition) + Zeros(64 * |buffer| - bitPosition);
    forall i | 0 <= i < |s| ensures s[i] == t[i] {
    }
  }

  /** The word vector after `write_bit` pushed a fresh word (or not). */
  lemma {:induction false} GrowStep(buffer: seq<bv64>, pos: nat, grown: seq<bv64>)
    requires WriterInvariant(buffer, pos)
    requires grown == if pos % 64 == 0 then buffer + [0] else buffer
    ensures |grown| == pos / 64 + 1
    ensures |grown| == |buffer| + (if pos % 64 == 0 then 1 else 0)
    ensures forall i | 0 <= i < pos :: BufferBit(grown, i) == BufferBit(buffer, i)
    ensures forall i | pos <= i < 64 * |grown| :: !BufferBit(grown, i)
  {
    forall i | pos <= i < 64 * |grown| ensures !BufferBit(grown, i) {
      if i >= 64 * |buffer| {
        ZeroWord(i % 64);
      }
    }
  }

  /** Setting bit `a` of word `w` changes stream bit `64 * w + a` and no other. */
  lemma SetBufferBit(grown: seq<bv64>, w: nat, a: nat, i: nat)
    requires w < |grown| && a < 64 && i < 64 * |grown|
    ensures BufferBit(grown[w := grown[w] | Mask(a)], i) == (i == 64 * w + a || BufferBit(grown, i))
  {
    var result := grown[w := grown[w] | Mask(a)];
    if i / 64 == w {
      SetWordBit(grown[w], a, i % 64);
    } else {
      assert result[i / 64] == grown[i / 64];
    }
  }

  /** The word vector after `write_bit` OR-ed in the bit at `pos = 64 * w + a`. */
  lemma {:induction false} SetStep(grown: seq<bv64>, w: nat, a: nat, result: seq<bv64>)
    requires w < |grown| && a < 64
    requires result == grown[w := grown[w] | Mask(a)]
    ensures |result| == |grown|
    ensures forall i | 0 <= i < 64 * |grown| :: BufferBit(result, i) == (i == 64 * w + a || BufferBit(grown, i))
  {
    forall i | 0 <= i < 64 * |grown|
      ensures BufferBit(result, i) == (i == 64 * w + a || BufferBit(grown, i))
    {
      SetBufferBit(grown, w, a, i);
    }
  }

  /** Whatever the words look like, if the bits below `pos` are kept, bit `pos`
      is `bit` and the bits above it are clear, one more bit is written. */
  lemma {:induction false} AppendedBit(buffer: seq<bv64>, pos: nat, bit: bool, result: seq<bv64>)
    requires WriterInvariant(buffer, pos)
    requires |result| == pos / 64 + 1
    requires forall i | 0 <= i < pos :: BufferBit(result, i) == BufferBit(buffer, i)
    requires BufferBit(result, pos) == bit
    requires forall i | pos < i < 64 * |result| :: !BufferBit(result, i)
    ensures WriterInvariant(result, pos + 1)
    ensures Unpack(result, pos + 1) == Unpack(buffer, pos) + [bit]
  {
    var u, v := Unpack(result, pos + 1), Unpack(buffer, pos) + [bit];
    forall i | 0 <= i < pos + 1 ensures u[i] == v[i] {
    }
  }

  /** `write_bit(false)`: the word vector grows on a word boundary, nothing is set. */
  lemma ClearBitStep(buffer: seq<bv64>, pos: nat, grown: seq<bv64>)
    requires WriterInvariant(buffer, pos)
    requires grown == if pos % 64 == 0 then buffer + [0] else buffer
    ensures WriterInvariant(grown, pos + 1)
    ensures Unpack(grown, pos + 1) == Unpack(buffer, pos) + [false]
  {
    GrowStep(buffer, pos, grown);
    AppendedBit(buffer, pos, false, grown);
  }

  /** `write_bit(true)`: after the growth, bit `pos % 64` of word `pos / 64` is set. */
  lemma SetBitStep(buffer: seq<bv64>, pos: nat, grown: seq<bv64>, result: seq<bv64>)
    requires WriterInvariant(buffer, pos)
    requires grown == if pos % 64 == 0 then buffer + [0] else buffer
    requires pos / 64 < |grown|
    requires result == grown[pos / 64 := grown[pos / 64] | Mask(pos % 64)]
    ensures WriterInvariant(result, pos + 1)
    ensures Unpack(result, pos + 1) == Unpack(buffer, pos) + [true]
  {
    GrowStep(buffer, pos, grown);
    SetStep(grown, pos / 64, pos % 64, result);
    assert 64 * (pos / 64) + pos % 64 == pos;
    AppendedBit(buffer, pos, true, result);
  }

  class BitWriter {
    var buffer: seq<bv64>
    var bitPosition: nat

    ghost predicate Valid()
      reads this
    {
      WriterInvariant(buffer, bitPosition)
    }

    /** The bits written so far, in order. */
    function Contents(): (bits: seq<bool>)
      reads this
      requires Valid()
      ensures |bits| == bitPosition
    {
      Unpack(buffer, bitPosition)
    }

    /** `BitWriter::default()`: no words, cursor at 0. */
    constructor ()
      ensures Valid() && buffer == [] && bitPosition == 0 && Contents() == []
    {
      buffer := [];
      bitPosition := 0;
    }

    /** Appends one bit; a fresh zero word is pushed exactly when the cursor
        stands on a word boundary. */
    method WriteBit(bit: bool)
      requires Valid()
      modifies this
      ensures Valid()
      ensures bitPosition == old(bitPosition) + 1
      ensures |buffer| == old(|buffer|) + (if old(bitPosition) % 64 == 0 then 1 else 0)
      ensures Contents() == old(Contents()) + [bit]
    {
      ghost var oldBuffer := buffer;
      if bitPosition % 64 == 0 {
        buffer := buffer + [0];
      }
      GrowStep(oldBuffer, bitPosition, buffer);
      if bit {
        var bufferIndex := bitPosition / 64;
        var bufferOffset := bitPosition % 64;
        ghost var grown := buffer;
        buffer := buffer[bufferIndex := buffer[bufferIndex] | Mask(bufferOffset)];
        SetBitStep(oldBuffer, bitPosition, grown, buffer);
      } else {
        ClearBitStep(oldBuffer, bitPosition, buffer);
      }
      bitPosition := bitPosition + 1;
    }

    /** Appends the given bits in order (`write_bits_vec`). */
    method WriteBitsVec(bits: seq<bool>)
      requires Valid()
      modifies this
      ensures Valid()
      ensures Contents() == old(Contents()) + bits
    {
      for k := 0 to |bits|
        invariant Valid()
        invariant Contents() == old(Contents()) + bits[..k]
      {
        WriteBit(bits[k]);
        assert bits[..k + 1] == bits[..k] + [bits[k]];
      }
      assert bits[..|bits|] == bits;
    }

    /** Appends the eight bits of `n`, least significant first. */
    method WriteU8(n: bv8)
      requires Valid()
      modifies this
      ensures Valid()
      ensures Contents() == old(Contents()) + U8Bits(n)
    {
      for i := 0 to 8
        invariant Valid()
        invariant Contents() == old(Contents()) + U8Bits(n)[..i]
      {
        WriteBit((n >> (i as bv8)) & 1 == 1);
        assert U8Bits(n)[..i + 1] == U8Bits(n)[..i] + [U8Bits(n)[i]];
      }
      assert U8Bits(n)[..8] == U8Bits(n);
    }

    /** Appends the sixteen bits of `n`, least significant first. */
    method WriteU16(n: bv16)
      requires Valid()
      modifies this
      ensures Valid()
      ensures Contents() == old(Contents()) + U16Bits(n)
    {
      for i := 0 to 16
        invariant Valid()
        invariant Contents() == old(Contents()) + U16Bits(n)[..i]
      {
        WriteBit((n >> (i as bv8)) & 1 == 1);
        assert U16Bits(n)[..i + 1] == U16Bits(n)[..i] + [U16Bits(n)[i]];
      }
      assert U16Bits(n)[..16] == U16Bits(n);
    }

    /** A reader over a copy of the words, cursor at 0. */
    method ToReader() returns (reader: BitReader)
      requires Valid()
      ensures fresh(reader)
      ensures reader.buffer == buffer && reader.bitPosition == 0
      ensures reader.StreamBits() == Contents() + Zeros(64 * |buffer| - bitPosition)
    {
      reader := new BitReader.FromWriter(this);
      WrittenStream(buffer, bitPosition);
    }
  }

  class BitReader {
    const buffer: seq<bv64>
    var bitPosition: nat

    /** Every bit the reader can return, including the unwritten zero bits at
        the end of the last word. */
    function StreamBits(): (bits: seq<bool>)
      ensures |bits| == 64 * |buffer|
    {
      Stream(buffer)
    }

    /** `BitReader::from_writer`: a copy of the writer's words, cursor at 0. */
    constructor FromWriter(writer: BitWriter)
      ensures buffer == writer.buffer && bitPosition == 0
    {
      buffer := writer.buffer;
      bitPosition := 0;
    }

    /** A reader over a copy of `buffer` positioned at `bitPosition` (the struct
        literal by which a second cursor is made). */
    constructor At(buffer: seq<bv64>, bitPosition: nat)
      ensures this.buffer == buffer && this.bitPosition == bitPosition
    {
      this.buffer := buffer;
      this.bitPosition := bitPosition;
    }

    /** Skips `len` bits without reading them. */
    method Progress(len: nat)
      modifies this
      ensures bitPosition == old(bitPosition) + len
    {
      bitPosition := bitPosition + len;
    }

    /** Reads the bit at the cursor. The cursor advances even when the read
        fails, and the read fails only past the last word: an unwritten bit
        inside the last word reads as `false`. */
    method ReadBit() returns (r: Option<bool>)
      modifies this
      ensures bitPosition == old(bitPosition) + 1
      ensures r.None? <==> old(bitPosition) >= 64 * |buffer|
      ensures r == ReadBitAt(StreamBits(), old(bitPosition))
    {
      var bufferIndex := bitPosition / 64;
      var bufferOffset := bitPosition % 64;
      bitPosition := bitPosition + 1;
      if bufferIndex < |buffer| {
        return Some((buffer[bufferIndex] >> (bufferOffset as bv8)) & 1 == 1);
      }
      return None;
    }

    /** Reads sixteen bits into a `u16`, the first bit read landing in bit 0;
        the first failing bit read makes the whole read fail. */
    method ReadU16() returns (r: Option<bv16>)
      modifies this
      ensures r == ReadU16At(StreamBits(), old(bitPosition))
      ensures bitPosition == if r.Some? then old(bitPosition) + 16
                             else FailedReadEnd(StreamBits(), old(bitPosition))
    {
      ghost var s, start := StreamBits(), bitPosition;
      var u16: bv16 := 0;
      for i := 0 to 16
        invariant bitPosition == start + i
        invariant i == 0 || start + i <= |s|
        invariant u16 == ShiftIn16(ReadSoFar(s, start, i))
      {
        var bit := ReadBit();
        if bit.Some? {
          ReadU16Step(s, start, i, u16, bit.value);
          u16 := Shift16(u16, bit.value);
        } else {
          assert start + i == (if start < |s| then |s| else start);
          return None;
        }
      }
      return Some(u16);
    }

    /** Reads eight bits into a `u8`, the first bit read landing in bit 0;
        the first failing bit read makes the whole read fail. */
    method ReadU8() returns (r: Option<bv8>)
      modifies this
      ensures r == ReadU8At(StreamBits(), old(bitPosition))
      ensures bitPosition == if r.Some? then old(bitPosition) + 8
                             else FailedReadEnd(StreamBits(), old(bitPosition))
    {
      ghost var s, start := StreamBits(), bitPosition;
      var u8: bv8 := 0;
      for i := 0 to 8
        invariant bitPosition == start + i
        invariant i == 0 || start + i <= |s|
        invariant u8 == ShiftIn8(ReadSoFar(s, start, i))
      {
        var bit := ReadBit();
        if bit.Some? {
          ReadU8Step(s, start, i, u8, bit.value);
          u8 := Shift8(u8, bit.value);
        } else {
          assert start + i == (if start < |s| then |s| else start);
          return None;
        }
      }
      return Some(u8);
    }

    /** Reads the next `len` bits in order; the first failing bit read makes
        the whole read fail and the bits read so far are dropped. */
    method ReadBitsVec(len: nat) returns (r: Option<seq<bool>>)
      modifies this
      ensures r == ReadBitsAt(StreamBits(), old(bitPosition), len)
      ensures bitPosition == if r.Some? then old(bitPosition) + len
                             else FailedReadEnd(StreamBits(), old(bitPosition))
    {
      ghost var s, start := StreamBits(), bitPosition;
      var ret: seq<bool> := [];
      for i := 0 to len
        invariant bitPosition == start + i
        invariant i == 0 || start + i <= |s|
        invariant ret == if i == 0 then [] else s[start..start + i]
      {
        var bit := ReadBit();
        if bit.Some? {
          ret := ret + [bit.value];
        } else {
          return None;
        }
      }
      return Some(ret);
    }
  }
}
