/** Bit-level layouts shared by the writer and the reader of src/bit_stream.rs:
    which bit of which 64-bit word holds stream bit `i`, the least-significant-first
    layout of `u8` and `u16` fields, the shift accumulator that reads them back, and
    what each read returns, stated over the stream as a sequence of bits. */
module Bits {
  import opened Wrappers

  /** Bit `k` of a buffer word, counted from the least significant end. */
  function WordBit(w: bv64, k: nat): bool
    requires k < 64
  {
    (w >> (k as bv8)) & 1 == 1
  }

  /** The word with only bit `a` set, `1 << a`. */
  function Mask(a: nat): bv64
    requires a < 64
  {
    OffsetCast(a);
    OffsetBelow(a as bv8);
    1 << (a as bv8)
  }

  /** Stream bit `i` lives in word `i / 64` at offset `i % 64`. */
  function BufferBit(buffer: seq<bv64>, i: nat): bool
    requires i < 64 * |buffer|
  {
    WordBit(buffer[i / 64], i % 64)
  }

  /** The first `n` stream bits held by `buffer`, in stream order. */
  function Unpack(buffer: seq<bv64>, n: nat): (r: seq<bool>)
    requires n <= 64 * |buffer|
    ensures |r| == n
  {
    seq(n, i requires 0 <= i < n => BufferBit(buffer, i))
  }

  /** Everything a reader over `buffer` can return: every bit of every word. */
  function Stream(buffer: seq<bv64>): (r: seq<bool>)
    ensures |r| == 64 * |buffer|
  {
    Unpack(buffer, 64 * |buffer|)
  }

  function Zeros(n: nat): (r: seq<bool>)
    ensures |r| == n && forall i | 0 <= i < n :: !r[i]
  {
    seq(n, _ => false)
  }

  // ---------------------------------------------------------------------------
  // Words: setting one bit (`buffer[index] |= 1 << offset`).

  lemma OrBitWord(w: bv64, a: bv8, k: bv8)
    requires a < 64 && k < 64
    ensures ((w | (1 << a)) >> k) & 1 == 1 <==> (k == a || (w >> k) & 1 == 1)
  {
  }

  lemma OffsetCast(k: nat)
    requires k < 64
    ensures (k as bv8) as int == k
  {
  }

  lemma OffsetBelow(x: bv8)
    requires x as int < 64
    ensures x < 64
  {
  }

  lemma OffsetConversion(k: nat, a: nat)
    requires k < 64 && a < 64
    ensures k as bv8 < 64 && a as bv8 < 64
    ensures (k as bv8 == a as bv8) == (k == a)
  {
    OffsetCast(k);
    OffsetCast(a);
    OffsetBelow(k as bv8);
    OffsetBelow(a as bv8);
  }

  /** OR-ing in `1 << a` sets bit `a` of the word and leaves every other bit as it was. */
  lemma SetWordBit(w: bv64, a: nat, k: nat)
    requires a < 64 && k < 64
    ensures WordBit(w | Mask(a), k) == (k == a || WordBit(w, k))
  {
    OffsetConversion(k, a);
    OrBitWord(w, a as bv8, k as bv8);
  }

  lemma ZeroWord(k: nat)
    requires k < 64
    ensures !WordBit(0, k)
  {
  }

  // ---------------------------------------------------------------------------
  // Fixed-width fields: `write_u8` / `write_u16` write bit `i` as `(n >> i) & 1 == 1`;
  // `read_u8` / `read_u16` shift each bit read in at the top: `v = (v >> 1) | (bit << 7)`.

  function Bit8(x: bv8, j: nat): bool
    requires j < 8
  {
    (x >> (j as bv8)) & 1 == 1
  }

  function Bit16(x: bv16, j: nat): bool
    requires j < 16
  {
    (x >> (j as bv8)) & 1 == 1
  }

  /** The eight bits `write_u8(n)` appends, least significant first. */
  function U8Bits(n: bv8): (r: seq<bool>)
    ensures |r| == 8
  {
    seq(8, i requires 0 <= i < 8 => Bit8(n, i))
  }

  /** The sixteen bits `write_u16(n)` appends, least significant first. */
  function U16Bits(n: bv16): (r: seq<bool>)
    ensures |r| == 16
  {
    seq(16, i requires 0 <= i < 16 => Bit16(n, i))
  }

  /** One step of `read_u8`: the accumulator shifts down and the new bit enters at the top. */
  function Shift8(acc: bv8, b: bool): bv8
  {
    (acc >> 1) | ((if b then 1 else 0) << 7)
  }

  /** One step of `read_u16`. */
  function Shift16(acc: bv16, b: bool): bv16
  {
    (acc >> 1) | ((if b then 1 else 0) << 15)
  }

  /** The accumulator of `read_u8` after the given bits were shifted in. */
  function ShiftIn8(bits: seq<bool>): bv8
  {
    if bits == [] then 0
    else Shift8(ShiftIn8(bits[..|bits| - 1]), bits[|bits| - 1])
  }

  /** The accumulator of `read_u16` after the given bits were shifted in. */
  function ShiftIn16(bits: seq<bool>): bv16
  {
    if bits == [] then 0
    else Shift16(ShiftIn16(bits[..|bits| - 1]), bits[|bits| - 1])
  }

  lemma ShiftIn8Snoc(bits: seq<bool>, b: bool)
    ensures ShiftIn8(bits + [b]) == Shift8(ShiftIn8(bits), b)
  {
    assert (bits + [b])[..|bits|] == bits;
  }

  lemma ShiftIn16Snoc(bits: seq<bool>, b: bool)
    ensures ShiftIn16(bits + [b]) == Shift16(ShiftIn16(bits), b)
  {
    assert (bits + [b])[..|bits|] == bits;
  }

  lemma ShiftStep8(acc: bv8, b: bool, j: bv8)
    requires j < 8
    ensures ((((acc >> 1) | ((if b then 1 else 0) << 7)) >> j) & 1 == 1)
            == if j == 7 then b else (acc >> (j + 1)) & 1 == 1
  {
  }

  lemma ShiftStep16(acc: bv16, b: bool, j: bv8)
    requires j < 16
    ensures ((((acc >> 1) | ((if b then 1 else 0) << 15)) >> j) & 1 == 1)
            == if j == 15 then b else (acc >> (j + 1)) & 1 == 1
  {
  }

  lemma ShiftStep8At(acc: bv8, b: bool, j: nat)
    requires j < 8
    ensures Bit8(Shift8(acc, b), j) == if j == 7 then b else Bit8(acc, j + 1)
  {
    ShiftStep8(acc, b, j as bv8);
    assert j < 7 ==> (j + 1) as bv8 == (j as bv8) + 1;
  }

  lemma ShiftStep16At(acc: bv16, b: bool, j: nat)
    requires j < 16
    ensures Bit16(Shift16(acc, b), j) == if j == 15 then b else Bit16(acc, j + 1)
  {
    ShiftStep16(acc, b, j as bv8);
    assert j < 15 ==> (j + 1) as bv8 == (j as bv8) + 1;
  }

  /** After `k <= 8` bits were shifted in, they occupy the top `k` bits of the
      accumulator in reading order, and the low `8 - k` bits are still zero. */
  lemma {:induction false} ShiftIn8Layout(bits: seq<bool>)
    requires |bits| <= 8
    ensures forall j | 0 <= j < 8 ::
              Bit8(ShiftIn8(bits), j) == (8 - |bits| <= j && bits[j - (8 - |bits|)])
  {
    if bits == [] {
      forall j | 0 <= j < 8 ensures !Bit8(0, j) {
        assert (0 as bv8 >> (j as bv8)) == 0;
      }
    } else {
      var k := |bits|;
      var init := bits[..k - 1];
      ShiftIn8Layout(init);
      forall j | 0 <= j < 8
        ensures Bit8(ShiftIn8(bits), j) == (8 - k <= j && bits[j - (8 - k)])
      {
        ShiftStep8At(ShiftIn8(init), bits[k - 1], j);
      }
    }
  }

  /** After `k <= 16` bits were shifted in, they occupy the top `k` bits of the
      accumulator in reading order, and the low `16 - k` bits are still zero. */
  lemma {:induction false} ShiftIn16Layout(bits: seq<bool>)
    requires |bits| <= 16
    ensures forall j | 0 <= j < 16 ::
              Bit16(ShiftIn16(bits), j) == (16 - |bits| <= j && bits[j - (16 - |bits|)])
  {
    if bits == [] {
      forall j | 0 <= j < 16 ensures !Bit16(0, j) {
        assert (0 as bv16 >> (j as bv8)) == 0;
      }
    } else {
      var k := |bits|;
      var init := bits[..k - 1];
      ShiftIn16Layout(init);
      forall j | 0 <= j < 16
        ensures Bit16(ShiftIn16(bits), j) == (16 - k <= j && bits[j - (16 - k)])
      {
        ShiftStep16At(ShiftIn16(init), bits[k - 1], j);
      }
    }
  }

  /** Reading eight bits and writing the value back reproduces those bits. */
  lemma U8BitsOfShiftIn(bits: seq<bool>)
    requires |bits| == 8
    ensures U8Bits(ShiftIn8(bits)) == bits
  {
    ShiftIn8Layout(bits);
  }

  /** Reading sixteen bits and writing the value back reproduces those bits. */
  lemma U16BitsOfShiftIn(bits: seq<bool>)
    requires |bits| == 16
    ensures U16Bits(ShiftIn16(bits)) == bits
  {
    ShiftIn16Layout(bits);
  }

  /** Distinct bytes are written as distinct bit patterns. */
  lemma U8BitsInjective(a: bv8, b: bv8)
    requires U8Bits(a) == U8Bits(b)
    ensures a == b
  {
    assert U8Bits(a)[0] == U8Bits(b)[0];
    assert U8Bits(a)[1] == U8Bits(b)[1];
    assert U8Bits(a)[2] == U8Bits(b)[2];
    assert U8Bits(a)[3] == U8Bits(b)[3];
    assert U8Bits(a)[4] == U8Bits(b)[4];
    assert U8Bits(a)[5] == U8Bits(b)[5];
    assert U8Bits(a)[6] == U8Bits(b)[6];
    assert U8Bits(a)[7] == U8Bits(b)[7];
  }

  /** Distinct `u16` values are written as distinct bit patterns. */
  lemma U16BitsInjective(a: bv16, b: bv16)
    requires U16Bits(a) == U16Bits(b)
    ensures a == b
  {
    assert U16Bits(a)[0] == U16Bits(b)[0];
    assert U16Bits(a)[1] == U16Bits(b)[1];
    assert U16Bits(a)[2] == U16Bits(b)[2];
    assert U16Bits(a)[3] == U16Bits(b)[3];
    assert U16Bits(a)[4] == U16Bits(b)[4];
    assert U16Bits(a)[5] == U16Bits(b)[5];
    assert U16Bits(a)[6] == U16Bits(b)[6];
    assert U16Bits(a)[7] == U16Bits(b)[7];
    assert U16Bits(a)[8] == U16Bits(b)[8];
    assert U16Bits(a)[9] == U16Bits(b)[9];
    assert U16Bits(a)[10] == U16Bits(b)[10];
    assert U16Bits(a)[11] == U16Bits(b)[11];
    assert U16Bits(a)[12] == U16Bits(b)[12];
    assert U16Bits(a)[13] == U16Bits(b)[13];
    assert U16Bits(a)[14] == U16Bits(b)[14];
    assert U16Bits(a)[15] == U16Bits(b)[15];
  }

  /** `read_u8` after `write_u8(n)` returns `n`. */
  lemma U8RoundTrip(n: bv8)
    ensures ShiftIn8(U8Bits(n)) == n
  {
    U8BitsOfShiftIn(U8Bits(n));
    U8BitsInjective(ShiftIn8(U8Bits(n)), n);
  }

  /** `read_u16` after `write_u16(n)` returns `n`. */
  lemma U16RoundTrip(n: bv16)
    ensures ShiftIn16(U16Bits(n)) == n
  {
    U16BitsOfShiftIn(U16Bits(n));
    U16BitsInjective(ShiftIn16(U16Bits(n)), n);
  }

  // ---------------------------------------------------------------------------
  // Reads, over the stream `s` a reader sees and its cursor `pos`. A read of
  // bit `p` fails exactly when `p` is past the last word, i.e. `p >= |s|`.

  function ReadBitAt(s: seq<bool>, pos: nat): Option<bool>
  {
    if pos < |s| then Some(s[pos]) else None
  }

  function ReadU8At(s: seq<bool>, pos: nat): Option<bv8>
  {
    if pos + 8 <= |s| then Some(ShiftIn8(s[pos..pos + 8])) else None
  }

  function ReadU16At(s: seq<bool>, pos: nat): Option<bv16>
  {
    if pos + 16 <= |s| then Some(ShiftIn16(s[pos..pos + 16])) else None
  }

  /** Reading no bits succeeds wherever the cursor stands. */
  function ReadBitsAt(s: seq<bool>, pos: nat, len: nat): Option<seq<bool>>
  {
    if len == 0 then Some([])
    else if pos + len <= |s| then Some(s[pos..pos + len])
    else None
  }

  /** Where the cursor stands after a multi-bit read failed: one past the first
      failing bit, which is the later of the start and the end of the stream. */
  function FailedReadEnd(s: seq<bool>, pos: nat): nat
  {
    (if pos < |s| then |s| else pos) + 1
  }

  /** `bits` stands in `s` from position `pos` on. */
  predicate At(s: seq<bool>, pos: nat, bits: seq<bool>)
  {
    pos + |bits| <= |s| && s[pos..pos + |bits|] == bits
  }

  lemma AtConcat(s: seq<bool>, pos: nat, a: seq<bool>, b: seq<bool>)
    requires At(s, pos, a + b)
    ensures At(s, pos, a) && At(s, pos + |a|, b)
  {
    assert s[pos..pos + |a|] == (a + b)[..|a|];
    assert s[pos + |a|..pos + |a| + |b|] == (a + b)[|a|..];
  }

  /** A `u8` written at `pos` reads back as itself. */
  lemma ReadU8Written(s: seq<bool>, pos: nat, n: bv8)
    requires At(s, pos, U8Bits(n))
    ensures ReadU8At(s, pos) == Some(n)
  {
    U8RoundTrip(n);
  }

  /** The bits a reader has taken after `i` successful reads from `pos`. */
  function ReadSoFar(s: seq<bool>, pos: nat, i: nat): (r: seq<bool>)
    ensures pos + i <= |s| ==> r == s[pos..pos + i]
  {
    if pos + i <= |s| then s[pos..pos + i] else []
  }

  /** One more successful bit read extends what has been read by that bit. */
  lemma ReadSoFarStep(s: seq<bool>, pos: nat, i: nat, b: bool)
    requires i == 0 || pos + i <= |s|
    requires ReadBitAt(s, pos + i) == Some(b)
    ensures ReadSoFar(s, pos, i + 1) == ReadSoFar(s, pos, i) + [b]
  {
    assert s[pos..pos + i + 1] == s[pos..pos + i] + [s[pos + i]];
  }

  lemma ReadU8Step(s: seq<bool>, pos: nat, i: nat, acc: bv8, b: bool)
    requires i == 0 || pos + i <= |s|
    requires acc == ShiftIn8(ReadSoFar(s, pos, i))
    requires ReadBitAt(s, pos + i) == Some(b)
    ensures Shift8(acc, b) == ShiftIn8(ReadSoFar(s, pos, i + 1))
  {
    ReadSoFarStep(s, pos, i, b);
    ShiftIn8Snoc(ReadSoFar(s, pos, i), b);
  }

  lemma ReadU16Step(s: seq<bool>, pos: nat, i: nat, acc: bv16, b: bool)
    requires i == 0 || pos + i <= |s|
    requires acc == ShiftIn16(ReadSoFar(s, pos, i))
    requires ReadBitAt(s, pos + i) == Some(b)
    ensures Shift16(acc, b) == ShiftIn16(ReadSoFar(s, pos, i + 1))
  {
    ReadSoFarStep(s, pos, i, b);
    ShiftIn16Snoc(ReadSoFar(s, pos, i), b);
  }

  /** A `u16` written at `pos` reads back as itself. */
  lemma ReadU16Written(s: seq<bool>, pos: nat, n: bv16)
    requires At(s, pos, U16Bits(n))
    ensures ReadU16At(s, pos) == Some(n)
  {
    U16RoundTrip(n);
  }

  // ---------------------------------------------------------------------------
  // Numbers and their bits, least significant first. Casts between integers
  // and fixed-width values (`n as u16`, `byte as char`) go through these.

  function Pow2(k: nat): (p: nat)
    ensures p >= 1
  {
    if k == 0 then 1 else 2 * Pow2(k - 1)
  }

  /** The low `k` bits of `n`. */
  function NatBits(n: nat, k: nat): (r: seq<bool>)
    ensures |r| == k
  {
    if k == 0 then [] else [n % 2 == 1] + NatBits(n / 2, k - 1)
  }

  /** The number the bits stand for. */
  function BitsValue(bits: seq<bool>): nat
  {
    if bits == [] then 0 else (if bits[0] then 1 else 0) + 2 * BitsValue(bits[1..])
  }

  lemma ModUnique(n: int, d: int, a: int, r: int)
    requires 0 <= r < d && n == a * d + r
    ensures n % d == r && n / d == a
  {
    var q := n / d;
    var k := a - q;
    assert k * d == n % d - r by {
      assert n == q * d + n % d;
      assert a * d - q * d == (a - q) * d;
    }
    MulSign(k, d);
  }

  lemma MulSign(k: int, d: int)
    requires d > 0
    ensures k >= 1 ==> k * d >= d
    ensures k <= -1 ==> k * d <= -d
  {
    if k >= 1 {
      assert k * d == d + (k - 1) * d;
    } else if k <= -1 {
      assert k * d == -d - (-(k + 1)) * d;
    }
  }

  lemma ModDouble(n: nat, m: nat)
    requires m >= 1
    ensures n % (2 * m) == n % 2 + 2 * ((n / 2) % m)
  {
    var q, r := n / 2, n % 2;
    var a, b := q / m, q % m;
    assert n == 2 * q + r;
    assert q == a * m + b;
    assert n == a * (2 * m) + (2 * b + r);
    ModUnique(n, 2 * m, a, 2 * b + r);
  }

  /** Reading back the low `k` bits of `n` gives `n` modulo `2^k`. */
  lemma {:induction false} BitsValueNatBits(n: nat, k: nat)
    ensures BitsValue(NatBits(n, k)) == n % Pow2(k)
  {
    if k > 0 {
      var bits := NatBits(n, k);
      assert bits[1..] == NatBits(n / 2, k - 1);
      BitsValueNatBits(n / 2, k - 1);
      ModDouble(n, Pow2(k - 1));
    }
  }

  /** `k` bits stand for a number below `2^k`. */
  lemma {:induction false} BitsValueBound(bits: seq<bool>)
    ensures BitsValue(bits) < Pow2(|bits|)
  {
    if bits != [] {
      BitsValueBound(bits[1..]);
    }
  }

  lemma Pow2Widths()
    ensures Pow2(8) == 256 && Pow2(16) == 65536
  {
    assert Pow2(2) == 4;
    assert Pow2(4) == 16 by { assert Pow2(3) == 8; }
    assert Pow2(6) == 64 by { assert Pow2(5) == 32; }
    assert Pow2(8) == 256 by { assert Pow2(7) == 128; }
    assert Pow2(10) == 1024 by { assert Pow2(9) == 512; }
    assert Pow2(12) == 4096 by { assert Pow2(11) == 2048; }
    assert Pow2(14) == 16384 by { assert Pow2(13) == 8192; }
    assert Pow2(16) == 65536 by { assert Pow2(15) == 32768; }
  }

  /** `n as u8`: the byte whose bits are the low eight bits of `n`. */
  function U8Of(n: nat): (b: bv8)
    ensures U8Bits(b) == NatBits(n, 8)
  {
    U8BitsOfShiftIn(NatBits(n, 8));
    ShiftIn8(NatBits(n, 8))
  }

  /** `n as u16`: the value whose bits are the low sixteen bits of `n`. */
  function U16Of(n: nat): (v: bv16)
    ensures U16Bits(v) == NatBits(n, 16)
  {
    U16BitsOfShiftIn(NatBits(n, 16));
    ShiftIn16(NatBits(n, 16))
  }

  /** The number a byte stands for (`b as usize`, `b as char`). */
  function U8Value(b: bv8): (n: nat)
    ensures n < 256
  {
    BitsValueBound(U8Bits(b));
    Pow2Widths();
    BitsValue(U8Bits(b))
  }

  /** The number a `u16` stands for. */
  function U16Value(v: bv16): (n: nat)
    ensures n < 65536
  {
    BitsValueBound(U16Bits(v));
    Pow2Widths();
    BitsValue(U16Bits(v))
  }

  /** `n as u8` keeps `n` modulo 256. */
  lemma U8ValueOf(n: nat)
    ensures U8Value(U8Of(n)) == n % 256
  {
    BitsValueNatBits(n, 8);
    Pow2Widths();
  }

  /** `n as u16` keeps `n` modulo 65536. */
  lemma U16ValueOf(n: nat)
    ensures U16Value(U16Of(n)) == n % 65536
  {
    BitsValueNatBits(n, 16);
    Pow2Widths();
  }

  // ---------------------------------------------------------------------------
  // Characters cross the stream as one byte: `c as u8` on the way out,
  // `byte as char` on the way in.

  function ByteOf(c: char): (b: bv8)
    ensures U8Value(b) == (c as int) % 256
  {
    U8ValueOf(c as int);
    U8Of(c as int)
  }

  function CharOf(b: bv8): (c: char)
    ensures c as int == U8Value(b)
  {
    U8Value(b) as char
  }

  /** What a character becomes after a trip through the stream. */
  function Truncate(c: char): (r: char)
    ensures r as int == (c as int) % 256
  {
    CharOf(ByteOf(c))
  }

  function TruncateAll(s: seq<char>): (r: seq<char>)
    ensures |r| == |s| && forall i | 0 <= i < |s| :: r[i] == Truncate(s[i])
  {
    seq(|s|, i requires 0 <= i < |s| => Truncate(s[i]))
  }

  predicate IsAscii(s: seq<char>)
  {
    forall i | 0 <= i < |s| :: s[i] as int < 128
  }

  /** ASCII text survives the one-byte truncation unchanged. */
  lemma TruncateAscii(s: seq<char>)
    requires IsAscii(s)
    ensures TruncateAll(s) == s
  {
    forall i | 0 <= i < |s| ensures TruncateAll(s)[i] == s[i] {
      TruncateAsciiChar(s[i]);
    }
  }

  lemma TruncateAsciiChar(c: char)
    requires c as int < 128
    ensures Truncate(c) == c
  {
    var r := Truncate(c);
    SmallMod(c as int, 256);
    CharInjective(r, c);
  }

  lemma SmallMod(n: nat, m: nat)
    requires n < m
    ensures n % m == n
  {
  }

  lemma CharInjective(a: char, b: char)
    requires a as int == b as int
    ensures a == b
  {
  }

  lemma Associative3<T>(a: seq<T>, b: seq<T>, c: seq<T>)
    ensures a + b + c == a + (b + c)
  {
  }

  lemma Associative<T>(a: seq<T>, b: seq<T>, c: seq<T>, d: seq<T>)
    ensures a + b + c + d == a + (b + c + d)
  {
  }
}
