/** The decoder of src/decompress.rs: the two framing readers that rebuild the
    code table (`tree_struct_decode`, `hash_map_decode`) and the loop that
    gathers bits until they spell a code (`decompress`). Every `unreachable!()`
    the decoder hits on a failed read is a `None` here. Each method is proved
    against a function over the reader's bit stream and cursor. */
module Decompress {
  import opened Wrappers
  import opened Bits
  import opened BitStream

  /** Code table of the decoder: a bit path to the character it stands for. */
  type Table = map<seq<bool>, char>

  /** A finished framing read: the table and where the main cursor stopped. */
  datatype Decoded = Decoded(table: Table, pos: nat)

  /** The state of the recursive tree read: the structure cursor, the
      character cursor and the table built so far. */
  datatype TreeCursor = TreeCursor(structurePos: nat, charPos: nat, table: Table)

  // ---------------------------------------------------------------------------
  // `tree_struct_decode` (decompress.rs:48-89).

  /** The inner `recurse`: a `true` shape bit is a branch whose `t` side
      (path bit `false`) is read before its `f` side (path bit `true`); a
      `false` shape bit is a leaf whose character is the next byte at the
      character cursor. */
  function TreeRecurseAt(s: seq<bool>, sp: nat, cp: nat, location: seq<bool>, table: Table): (r: Option<TreeCursor>)
    ensures r.Some? ==> sp < r.value.structurePos <= |s|
    decreases |s| - sp
  {
    match ReadBitAt(s, sp)
    case None => None
    case Some(bit) =>
      if bit then
        match TreeRecurseAt(s, sp + 1, cp, location + [false], table)
        case None => None
        case Some(left) => TreeRecurseAt(s, left.structurePos, left.charPos, location + [true], left.table)
      else
        match ReadU8At(s, cp)
        case None => None
        case Some(b) => Some(TreeCursor(sp + 1, cp + 8, table[location := CharOf(b)]))
  }

  /** The character count, then the characters (read by a second cursor),
      then the shape (read by the main cursor, which first skips the
      characters). `8 * ordered_chars_len` is computed in 16 bits: a count of
      8192 or more overflows, which stops the decoder. */
  function TreeStructDecodeAt(s: seq<bool>, pos: nat, table: Table): (r: Option<Decoded>)
    ensures r.Some? ==> pos + 16 < r.value.pos <= |s|
  {
    match ReadU16At(s, pos)
    case None => None
    case Some(n) =>
      var count := U16Value(n);
      if 8 * count >= 65536 then None
      else
        match TreeRecurseAt(s, pos + 16 + 8 * count, pos + 16, [], table)
        case None => None
        case Some(t) => Some(Decoded(t.table, t.structurePos))
  }

  /** The recursive read on two cursors over the same words. */
  method Recurse(structureReader: BitReader, characterReader: BitReader, cacheDecode: Table, location: seq<bool>)
    returns (r: Option<Table>)
    requires structureReader != characterReader
    requires characterReader.buffer == structureReader.buffer
    modifies structureReader, characterReader
    ensures var spec := TreeRecurseAt(structureReader.StreamBits(), old(structureReader.bitPosition),
                                      old(characterReader.bitPosition), location, cacheDecode);
            && (r.None? <==> spec.None?)
            && (r.Some? ==> && r.value == spec.value.table
                            && structureReader.bitPosition == spec.value.structurePos
                            && characterReader.bitPosition == spec.value.charPos)
    decreases 64 * |structureReader.buffer| - structureReader.bitPosition
  {
    var bit := structureReader.ReadBit();
    if bit.None? {
      return None;
    }
    if bit.value {
      var leftLocation := location + [false];
      var left := Recurse(structureReader, characterReader, cacheDecode, leftLocation);
      if left.None? {
        return None;
      }
      var rightLocation := location + [true];
      r := Recurse(structureReader, characterReader, left.value, rightLocation);
    } else {
      var charU8 := characterReader.ReadU8();
      if charU8.None? {
        return None;
      }
      r := Some(cacheDecode[location := CharOf(charU8.value)]);
    }
  }

  method TreeStructDecode(structReader: BitReader, cacheDecode: Table) returns (r: Option<Table>)
    modifies structReader
    ensures var spec := TreeStructDecodeAt(structReader.StreamBits(), old(structReader.bitPosition), cacheDecode);
            && (r.None? <==> spec.None?)
            && (r.Some? ==> r.value == spec.value.table && structReader.bitPosition == spec.value.pos)
  {
    ghost var s, start := structReader.StreamBits(), structReader.bitPosition;
    var orderedCharsLen := structReader.ReadU16();
    if orderedCharsLen.None? {
      return None;
    }
    var count := U16Value(orderedCharsLen.value);
    if 8 * count >= 65536 {
      return None;
    }
    var charsReader := new BitReader.At(structReader.buffer, structReader.bitPosition);
    structReader.Progress(8 * count);
    TreeStructDecodeStart(s, start, orderedCharsLen.value, structReader.bitPosition, charsReader.bitPosition, cacheDecode);
    r := Recurse(structReader, charsReader, cacheDecode, []);
  }

  /** After the count: the shape cursor stands past the characters, the
      character cursor at the first of them. */
  lemma TreeStructDecodeStart(s: seq<bool>, pos: nat, n: bv16, sp: nat, cp: nat, table: Table)
    requires ReadU16At(s, pos) == Some(n) && 8 * U16Value(n) < 65536
    requires sp == pos + 16 + 8 * U16Value(n) && cp == pos + 16
    ensures TreeStructDecodeAt(s, pos, table)
            == match TreeRecurseAt(s, sp, cp, [], table)
               case None => None
               case Some(t) => Some(Decoded(t.table, t.structurePos))
  {
  }

  // ---------------------------------------------------------------------------
  // `hash_map_decode` (decompress.rs:90-126).

  /** The key of a record: everything after the first `true`; no `true` at
      all leaves the key empty. */
  function StripPadding(bits: seq<bool>): seq<bool>
  {
    if bits == [] then []
    else if bits[0] then bits[1..]
    else StripPadding(bits[1..])
  }

  /** One more bit read into a record, as the `reached_terminator` loop takes it. */
  lemma {:induction false} StripPaddingSnoc(bits: seq<bool>, b: bool)
    ensures true !in bits ==> StripPadding(bits) == []
    ensures StripPadding(bits + [b]) == if true in bits then StripPadding(bits) + [b] else []
  {
    if bits != [] {
      assert (bits + [b])[1..] == bits[1..] + [b];
      assert true in bits <==> bits[0] || true in bits[1..];
      if !bits[0] {
        StripPaddingSnoc(bits[1..], b);
      }
    } else {
      assert [b][1..] == [];
    }
  }

  /** One record: `depth + 1` bits holding the padded key, then a byte. */
  function HashRecordAt(s: seq<bool>, pos: nat, depth: nat): Option<(seq<bool>, char)>
  {
    match ReadBitsAt(s, pos, depth + 1)
    case None => None
    case Some(bits) =>
      match ReadU8At(s, pos + depth + 1)
      case None => None
      case Some(b) => Some((StripPadding(bits), CharOf(b)))
  }

  /** `remaining` more records from `pos`, each inserted into `table` in turn
      (a later key replaces an earlier equal one). */
  function HashRecordsAt(s: seq<bool>, pos: nat, depth: nat, remaining: nat, table: Table): Option<Decoded>
    decreases remaining
  {
    if remaining == 0 then Some(Decoded(table, pos))
    else
      match HashRecordAt(s, pos, depth)
      case None => None
      case Some(record) => HashRecordsAt(s, pos + depth + 9, depth, remaining - 1, table[record.0 := record.1])
  }

  /** The number of records and the padded key width, then the records.
      `highest_depth + 1` is computed in 16 bits each time a record is read:
      a width of 65535 overflows, which stops the decoder, as soon as there is
      at least one record. With none, the bound is never computed. */
  function HashMapDecodeAt(s: seq<bool>, pos: nat, table: Table): Option<Decoded>
  {
    match ReadU16At(s, pos)
    case None => None
    case Some(cacheLen) =>
      match ReadU16At(s, pos + 16)
      case None => None
      case Some(highestDepth) =>
        var depth := U16Value(highestDepth);
        if depth == 65535 && U16Value(cacheLen) > 0 then None
        else HashRecordsAt(s, pos + 32, depth, U16Value(cacheLen), table)
  }

  /** A map framing that announces no records reads as the table it was
      given, whatever the width, and stops right after the two counts. */
  lemma NoRecordsAnyWidth(s: seq<bool>, pos: nat, table: Table, cacheLen: bv16, highestDepth: bv16)
    requires ReadU16At(s, pos) == Some(cacheLen) && U16Value(cacheLen) == 0
    requires ReadU16At(s, pos + 16) == Some(highestDepth)
    ensures HashMapDecodeAt(s, pos, table) == Some(Decoded(table, pos + 32))
  {
  }

  /** The inner loop: `depth + 1` bits, dropping everything up to the first
      `true` and keeping the rest. */
  method ReadKey(compressed: BitReader, depth: nat) returns (r: Option<seq<bool>>)
    modifies compressed
    ensures var s, pos := compressed.StreamBits(), old(compressed.bitPosition);
            && (r.None? <==> ReadBitsAt(s, pos, depth + 1).None?)
            && (r.Some? ==> r.value == StripPadding(s[pos..pos + depth + 1])
                            && compressed.bitPosition == pos + depth + 1)
  {
    ghost var s, start := compressed.StreamBits(), compressed.bitPosition;
    var vecBool: seq<bool> := [];
    var reachedTerminator := false;
    for j := 0 to depth + 1
      invariant compressed.bitPosition == start + j
      invariant j == 0 || start + j <= |s|
      invariant reachedTerminator == (true in ReadSoFar(s, start, j))
      invariant vecBool == StripPadding(ReadSoFar(s, start, j))
    {
      var bit := compressed.ReadBit();
      if bit.None? {
        return None;
      }
      ReadSoFarStep(s, start, j, bit.value);
      StripPaddingSnoc(ReadSoFar(s, start, j), bit.value);
      if reachedTerminator {
        vecBool := vecBool + [bit.value];
      } else if bit.value {
        reachedTerminator := true;
      }
    }
    return Some(vecBool);
  }

  method HashMapDecode(compressed: BitReader, cacheDecode: Table) returns (r: Option<Table>)
    modifies compressed
    ensures var spec := HashMapDecodeAt(compressed.StreamBits(), old(compressed.bitPosition), cacheDecode);
            && (r.None? <==> spec.None?)
            && (r.Some? ==> r.value == spec.value.table && compressed.bitPosition == spec.value.pos)
  {
    ghost var s, start := compressed.StreamBits(), compressed.bitPosition;
    var cacheLen := compressed.ReadU16();
    if cacheLen.None? {
      return None;
    }
    var highestDepth := compressed.ReadU16();
    if highestDepth.None? {
      return None;
    }
    var depth := U16Value(highestDepth.value);
    if depth == 65535 && U16Value(cacheLen.value) > 0 {
      return None;
    }
    assert HashMapDecodeAt(s, start, cacheDecode)
           == HashRecordsAt(s, start + 32, depth, U16Value(cacheLen.value), cacheDecode);
    r := ReadRecords(compressed, depth, U16Value(cacheLen.value), cacheDecode);
  }

  /** The loop over the records (`for _ in 0..cache_len`). */
  method ReadRecords(compressed: BitReader, depth: nat, count: nat, cacheDecode: Table) returns (r: Option<Table>)
    modifies compressed
    ensures var spec := HashRecordsAt(compressed.StreamBits(), old(compressed.bitPosition), depth, count, cacheDecode);
            && (r.None? ==> spec.None?)
            && (r.Some? ==> spec == Some(Decoded(r.value, compressed.bitPosition)))
  {
    ghost var s := compressed.StreamBits();
    ghost var goal := HashRecordsAt(s, compressed.bitPosition, depth, count, cacheDecode);
    var table := cacheDecode;
    var remaining := count;
    while remaining > 0
      invariant HashRecordsAt(s, compressed.bitPosition, depth, remaining, table) == goal
    {
      var next, left := InsertRecord(compressed, depth, remaining, table, goal);
      if next.None? {
        return None;
      }
      table, remaining := next.value, left;
    }
    return Some(table);
  }

  /** The body of the record loop: one record read and inserted. What is left
      to read then yields the same final table. */
  method InsertRecord(compressed: BitReader, depth: nat, remaining: nat, table: Table, ghost goal: Option<Decoded>)
    returns (r: Option<Table>, left: nat)
    requires remaining > 0
    requires HashRecordsAt(compressed.StreamBits(), compressed.bitPosition, depth, remaining, table) == goal
    modifies compressed
    ensures left == remaining - 1
    ensures r.None? ==> goal.None?
    ensures r.Some? ==> HashRecordsAt(compressed.StreamBits(), compressed.bitPosition, depth, left, r.value) == goal
  {
    left := remaining - 1;
    ghost var s, pos := compressed.StreamBits(), compressed.bitPosition;
    var record := ReadRecord(compressed, depth);
    if record.None? {
      HashRecordsFail(s, pos, depth, remaining, table);
      return None, left;
    }
    r := Some(table[record.value.0 := record.value.1]);
    HashRecordsStep(s, pos, compressed.bitPosition, depth, remaining, left, table, record.value, r.value, goal);
  }

  lemma HashRecordsStep(s: seq<bool>, pos: nat, next: nat, depth: nat, remaining: nat, left: nat,
                        table: Table, record: (seq<bool>, char), inserted: Table, goal: Option<Decoded>)
    requires remaining > 0 && HashRecordAt(s, pos, depth) == Some(record)
    requires HashRecordsAt(s, pos, depth, remaining, table) == goal
    requires next == pos + depth + 9 && left == remaining - 1 && inserted == table[record.0 := record.1]
    ensures HashRecordsAt(s, next, depth, left, inserted) == goal
  {
  }

  lemma HashRecordsFail(s: seq<bool>, pos: nat, depth: nat, remaining: nat, table: Table)
    requires remaining > 0 && HashRecordAt(s, pos, depth).None?
    ensures HashRecordsAt(s, pos, depth, remaining, table).None?
  {
  }

  /** The body of the record loop: the key, then `read_u8` as a character. */
  method ReadRecord(compressed: BitReader, depth: nat) returns (r: Option<(seq<bool>, char)>)
    modifies compressed
    ensures r == HashRecordAt(compressed.StreamBits(), old(compressed.bitPosition), depth)
    ensures r.Some? ==> compressed.bitPosition == old(compressed.bitPosition) + depth + 9
  {
    var vecBool := ReadKey(compressed, depth);
    if vecBool.None? {
      return None;
    }
    var charU8 := compressed.ReadU8();
    if charU8.None? {
      return None;
    }
    return Some((vecBool.value, CharOf(charU8.value)));
  }

  // ---------------------------------------------------------------------------
  // The payload loop of `decompress` (decompress.rs:15-43).

  /** Reads bits one at a time into `current`; when `current` is a key of the
      table its character is emitted and `current` starts again, until
      `remaining` characters have been emitted. Reading past the stream fails. */
  function ScanAt(s: seq<bool>, pos: nat, table: Table, remaining: nat, current: seq<bool>, output: seq<char>)
    : Option<seq<char>>
    decreases |s| - pos
  {
    if remaining == 0 then Some(output)
    else
      match ReadBitAt(s, pos)
      case None => None
      case Some(bit) =>
        var next := current + [bit];
        if next in table then ScanAt(s, pos + 1, table, remaining - 1, [], output + [table[next]])
        else ScanAt(s, pos + 1, table, remaining, next, output)
  }

  /** The length header, then the scan. */
  function PayloadAt(s: seq<bool>, pos: nat, table: Table): Option<seq<char>>
  {
    match ReadU16At(s, pos)
    case None => None
    case Some(n) => ScanAt(s, pos + 16, table, U16Value(n), [], [])
  }

  method DecodePayload(compressed: BitReader, cacheDecode: Table) returns (r: Option<seq<char>>)
    modifies compressed
    ensures r == PayloadAt(compressed.StreamBits(), old(compressed.bitPosition), cacheDecode)
  {
    ghost var s := compressed.StreamBits();
    ghost var goal := PayloadAt(s, compressed.bitPosition, cacheDecode);
    var charactersLen := compressed.ReadU16();
    if charactersLen.None? {
      return None;
    }
    var n := U16Value(charactersLen.value);
    var current: seq<bool> := [];
    var output: seq<char> := [];
    var i := 0;
    while i < n
      invariant i <= n
      invariant compressed.bitPosition <= |s|
      invariant ScanAt(s, compressed.bitPosition, cacheDecode, n - i, current, output) == goal
      decreases |s| - compressed.bitPosition
    {
      ghost var pos, before, written, left := compressed.bitPosition, current, output, n - i;
      var bit := compressed.ReadBit();
      if bit.None? {
        return None;
      }
      current := current + [bit.value];
      if current in cacheDecode {
        output := output + [cacheDecode[current]];
        current := [];
        i := i + 1;
      }
      ScanStep(s, pos, compressed.bitPosition, cacheDecode, left, n - i, before, current, written, output,
               bit.value, goal);
    }
    return Some(output);
  }

  /** One bit of the payload scan, stated on the values before and after it. */
  lemma ScanStep(s: seq<bool>, pos: nat, next: nat, table: Table, remaining: nat, left: nat,
                 current: seq<bool>, current': seq<bool>, output: seq<char>, output': seq<char>,
                 bit: bool, goal: Option<seq<char>>)
    requires remaining > 0 && ReadBitAt(s, pos) == Some(bit) && next == pos + 1
    requires ScanAt(s, pos, table, remaining, current, output) == goal
    requires current + [bit] in table ==> left == remaining - 1 && current' == [] && output' == output + [table[current + [bit]]]
    requires current + [bit] !in table ==> left == remaining && current' == current + [bit] && output' == output
    ensures ScanAt(s, next, table, left, current', output') == goal
  {
  }

  // ---------------------------------------------------------------------------
  // `decompress` (decompress.rs:4-44).

  /** `decompress` as shipped: the table comes from the map framing. */
  function DecompressAt(s: seq<bool>, pos: nat): Option<seq<char>>
  {
    match HashMapDecodeAt(s, pos, map[])
    case None => None
    case Some(d) => PayloadAt(s, d.pos, d.table)
  }

  /** `decompress` with the framing reader `compress` actually pairs with
      (the commented-out `tree_struct_decode` call). */
  function TreeStructDecompressAt(s: seq<bool>, pos: nat): Option<seq<char>>
  {
    match TreeStructDecodeAt(s, pos, map[])
    case None => None
    case Some(d) => PayloadAt(s, d.pos, d.table)
  }

  method Decompress(compressed: BitReader) returns (r: Option<seq<char>>)
    modifies compressed
    ensures r == DecompressAt(compressed.StreamBits(), old(compressed.bitPosition))
  {
    var cacheDecode := HashMapDecode(compressed, map[]);
    if cacheDecode.None? {
      return None;
    }
    r := DecodePayload(compressed, cacheDecode.value);
  }

  method DecompressMatched(compressed: BitReader) returns (r: Option<seq<char>>)
    modifies compressed
    ensures r == TreeStructDecompressAt(compressed.StreamBits(), old(compressed.bitPosition))
  {
    var cacheDecode := TreeStructDecode(compressed, map[]);
    if cacheDecode.None? {
      return None;
    }
    r := DecodePayload(compressed, cacheDecode.value);
  }
}
