/** What `decompress` gives back for what `compress` wrote: each framing read
    back by its own reader, the payload scan over a prefix code, and the whole
    trip from text to bits and back. */
module RoundTrip {
  import opened Wrappers
  import opened Bits
  import opened BitStream
  import opened HuffmanTypes
  import opened TreeBuild
  import opened Compress
  import opened Decompress

  // ---------------------------------------------------------------------------
  // The tree framing read back.

  /** The table the tree reader builds for `n` when it starts at `location`:
      each leaf's path mapped to its character after the one-byte trip. */
  function PathTable(n: HuffmanNode, location: seq<bool>): Table
  {
    match n
    case Branch(b) => PathTable(b.t, location + [false]) + PathTable(b.f, location + [true])
    case Value(v) => map[location := Truncate(v.ch)]
    case None => map[]
  }

  /** A byte written for a character reads back as that character cut to
      one byte. */
  lemma CharByteRead(s: seq<bool>, cp: nat, c: char)
    requires At(s, cp, CharBytes([c]))
    ensures ReadU8At(s, cp) == Some(ByteOf(c))
  {
    assert CharBytes([c]) == U8Bits(ByteOf(c)) by {
      assert [c][..0] == [];
    }
    ReadU8Written(s, cp, ByteOf(c));
  }

  /** `a` then `b` at `pos`: `a` at `pos`, `b` where `a` ends. */
  lemma AtSplit(s: seq<bool>, pos: nat, a: seq<bool>, b: seq<bool>, mid: nat)
    requires At(s, pos, a + b) && mid == pos + |a|
    ensures At(s, pos, a) && At(s, mid, b)
  {
    AtConcat(s, pos, a, b);
  }

  /** A bit written at `pos` reads back. */
  lemma BitRead(s: seq<bool>, pos: nat, b: bool)
    requires At(s, pos, [b])
    ensures ReadBitAt(s, pos) == Some(b)
  {
    assert s[pos..pos + 1][0] == s[pos];
  }

  /** A `true` shape bit: the `t` side is read, then the `f` side from where
      the `t` side left both cursors. */
  lemma TreeRecurseBranch(s: seq<bool>, sp: nat, cp: nat, location: seq<bool>, table: Table, left: TreeCursor)
    requires ReadBitAt(s, sp) == Some(true)
    requires TreeRecurseAt(s, sp + 1, cp, location + [false], table) == Some(left)
    ensures TreeRecurseAt(s, sp, cp, location, table)
            == TreeRecurseAt(s, left.structurePos, left.charPos, location + [true], left.table)
  {
  }

  /** A `false` shape bit: one character byte, bound to `location`. */
  lemma TreeRecurseLeaf(s: seq<bool>, sp: nat, cp: nat, location: seq<bool>, table: Table, b: bv8)
    requires ReadBitAt(s, sp) == Some(false) && ReadU8At(s, cp) == Some(b)
    ensures TreeRecurseAt(s, sp, cp, location, table) == Some(TreeCursor(sp + 1, cp + 8, table[location := CharOf(b)]))
  {
  }

  /** The shape read at `sp` and the characters read at `cp` rebuild the
      leaves of `n` under `location`, and both cursors end past what was
      written for `n`: the shape cursor at `spEnd`, the character cursor at
      `cpEnd`. */
  lemma {:induction false} TreeRecurseReadsTree(n: HuffmanNode, s: seq<bool>, sp: nat, cp: nat,
                                                location: seq<bool>, table: Table, spEnd: nat, cpEnd: nat)
    requires IsComplete(n)
    requires At(s, sp, ShapeBits(n)) && At(s, cp, CharBytes(LeafChars(n)))
    requires spEnd == sp + |ShapeBits(n)| && cpEnd == cp + 8 * |Leaves(n)|
    ensures TreeRecurseAt(s, sp, cp, location, table) == Some(TreeCursor(spEnd, cpEnd, table + PathTable(n, location)))
    decreases n
  {
    match n {
      case Branch(b) =>
        var sp1, sp2, cp2 := sp + 1, sp + 1 + |ShapeBits(b.t)|, cp + 8 * |Leaves(b.t)|;
        BranchLayout(b, s, sp, cp, sp1, sp2, cp2, spEnd, cpEnd);
        var tableT := table + PathTable(b.t, location + [false]);
        TreeRecurseReadsTree(b.t, s, sp1, cp, location + [false], table, sp2, cp2);
        TreeRecurseReadsTree(b.f, s, sp2, cp2, location + [true], tableT, spEnd, cpEnd);
        BranchReadsTree(b, s, sp, cp, location, table, tableT, sp2, cp2, spEnd, cpEnd);
      case Value(v) =>
        LeafReadsTree(v, s, sp, cp, location, table);
    }
  }

  /** Where the parts of a branch lie: its `true` bit, then the shape of `t`
      and of `f`; the characters of `t`, then those of `f`. */
  lemma BranchLayout(b: HuffmanBranch, s: seq<bool>, sp: nat, cp: nat, sp1: nat, sp2: nat, cp2: nat,
                     spEnd: nat, cpEnd: nat)
    requires At(s, sp, ShapeBits(Branch(b))) && At(s, cp, CharBytes(LeafChars(Branch(b))))
    requires sp1 == sp + 1 && sp2 == sp1 + |ShapeBits(b.t)| && cp2 == cp + 8 * |Leaves(b.t)|
    requires spEnd == sp + |ShapeBits(Branch(b))| && cpEnd == cp + 8 * |Leaves(Branch(b))|
    ensures ReadBitAt(s, sp) == Some(true)
    ensures At(s, sp1, ShapeBits(b.t)) && At(s, cp, CharBytes(LeafChars(b.t)))
    ensures At(s, sp2, ShapeBits(b.f)) && At(s, cp2, CharBytes(LeafChars(b.f)))
    ensures spEnd == sp2 + |ShapeBits(b.f)| && cpEnd == cp2 + 8 * |Leaves(b.f)|
  {
    var shapeT, shapeF := ShapeBits(b.t), ShapeBits(b.f);
    var charsT, charsF := CharBytes(LeafChars(b.t)), CharBytes(LeafChars(b.f));
    AtSplit(s, sp, [true] + shapeT, shapeF, sp2);
    AtSplit(s, sp, [true], shapeT, sp1);
    CharBytesConcat(LeafChars(b.t), LeafChars(b.f));
    AtSplit(s, cp, charsT, charsF, cp2);
    BitRead(s, sp, true);
  }

  /** The two sides of a branch read back give the branch read back. */
  lemma BranchReadsTree(b: HuffmanBranch, s: seq<bool>, sp: nat, cp: nat, location: seq<bool>, table: Table,
                        tableT: Table, sp2: nat, cp2: nat, spEnd: nat, cpEnd: nat)
    requires ReadBitAt(s, sp) == Some(true)
    requires tableT == table + PathTable(b.t, location + [false])
    requires TreeRecurseAt(s, sp + 1, cp, location + [false], table) == Some(TreeCursor(sp2, cp2, tableT))
    requires TreeRecurseAt(s, sp2, cp2, location + [true], tableT)
             == Some(TreeCursor(spEnd, cpEnd, tableT + PathTable(b.f, location + [true])))
    ensures TreeRecurseAt(s, sp, cp, location, table)
            == Some(TreeCursor(spEnd, cpEnd, table + PathTable(Branch(b), location)))
  {
    TreeRecurseBranch(s, sp, cp, location, table, TreeCursor(sp2, cp2, tableT));
    MapUnionAssociative(table, PathTable(b.t, location + [false]), PathTable(b.f, location + [true]));
  }

  lemma LeafReadsTree(v: HuffmanValue, s: seq<bool>, sp: nat, cp: nat, location: seq<bool>, table: Table)
    requires At(s, sp, [false]) && At(s, cp, CharBytes([v.ch]))
    ensures TreeRecurseAt(s, sp, cp, location, table)
            == Some(TreeCursor(sp + 1, cp + 8, table + PathTable(Value(v), location)))
  {
    BitRead(s, sp, false);
    CharByteRead(s, cp, v.ch);
    TreeRecurseLeaf(s, sp, cp, location, table, ByteOf(v.ch));
    assert table[location := Truncate(v.ch)] == table + map[location := Truncate(v.ch)];
  }

  /** A count below 65536 survives the cut to 16 bits. */
  lemma U16Exact(n: nat)
    requires n < 65536
    ensures U16Value(U16Of(n)) == n
  {
    U16ValueOf(n);
    SmallMod(n, 65536);
  }

  /** `tree_struct_decode` reads back what `tree_struct_encode` wrote: the
      table binds every leaf path of `root` to its character cut to one byte,
      and the cursor ends past the framing. Fewer than 8192 leaves keep
      `8 * ordered_chars_len` within 16 bits. */
  lemma TreeFramingReadBack(root: HuffmanNode, s: seq<bool>, pos: nat, table: Table, end: nat)
    requires IsComplete(root) && |Leaves(root)| < 8192
    requires At(s, pos, TreeStructBits(root)) && end == pos + |TreeStructBits(root)|
    ensures TreeStructDecodeAt(s, pos, table) == Some(Decoded(table + PathTable(root, []), end))
  {
    var leaves := |Leaves(root)|;
    var count, chars, shape := U16Bits(U16Of(leaves)), CharBytes(LeafChars(root)), ShapeBits(root);
    var cp, sp := pos + 16, pos + 16 + 8 * leaves;
    AtSplit(s, pos, count + chars, shape, sp);
    AtSplit(s, pos, count, chars, cp);
    ReadU16Written(s, pos, U16Of(leaves));
    U16Exact(leaves);
    TreeStructDecodeStart(s, pos, U16Of(leaves), sp, cp, table);
    TreeRecurseReadsTree(root, s, sp, cp, [], table, end, sp);
  }

  /** Every key of the table built from `n` under `location` is `location`
      followed by a path from `n` to a leaf. */
  lemma {:induction false} PathTableKey(n: HuffmanNode, location: seq<bool>, k: seq<bool>)
    requires k in PathTable(n, location)
    ensures IsPrefix(location, k) && exists c :: IsPathTo(n, k[|location|..], c)
    decreases n
  {
    match n {
      case Branch(b) =>
        var bit := k in PathTable(b.f, location + [true]);
        var sub, here := if bit then b.f else b.t, location + [bit];
        assert k in PathTable(sub, here);
        PathTableKey(sub, here, k);
        var c :| IsPathTo(sub, k[|here|..], c);
        assert k[..|location|] == k[..|here|][..|location|];
        var rest := k[|location|..];
        assert rest[0] == bit && rest[1..] == k[|here|..];
        assert IsPathTo(n, rest, c);
      case Value(v) =>
        assert k == location && k[|location|..] == [];
        assert IsPathTo(n, k[|location|..], v.ch);
    }
  }

  /** A key of the table built under `location + [bit]` has `bit` right after `location`. */
  lemma KeyContinuesLocation(n: HuffmanNode, location: seq<bool>, bit: bool, k: seq<bool>)
    requires k in PathTable(n, location + [bit])
    ensures |location| < |k| && k[|location|] == bit
  {
    PathTableKey(n, location + [bit], k);
    assert k[..|location| + 1][|location|] == k[|location|];
  }

  /** Every leaf path of `n`, after `location`, is a key bound to its leaf's
      character cut to one byte. */
  lemma {:induction false} PathTableHas(n: HuffmanNode, location: seq<bool>, q: seq<bool>, c: char)
    requires IsPathTo(n, q, c)
    ensures location + q in PathTable(n, location) && PathTable(n, location)[location + q] == Truncate(c)
    decreases |q|
  {
    if q == [] {
      assert location + q == location;
    } else {
      var b := n.branch;
      var here := location + [q[0]];
      assert here + q[1..] == location + q;
      if q[0] {
        PathTableHas(b.f, here, q[1..], c);
      } else {
        PathTableHas(b.t, here, q[1..], c);
        var k := location + q;
        assert k[|location|] == false;
        if k in PathTable(b.f, location + [true]) {
          KeyContinuesLocation(b.f, location, true, k);
          assert false;
        }
      }
    }
  }

  /** `table` undoes `cache`: it binds each code to its character cut to one
      byte, and holds no key that is not a code. */
  predicate DecodesCodes(table: Table, cache: map<char, seq<bool>>)
  {
    && (forall c | c in cache :: cache[c] in table && table[cache[c]] == Truncate(c))
    && (forall k | k in table :: exists c | c in cache :: cache[c] == k)
  }

  /** No code is empty and none begins another. */
  predicate PrefixCode(cache: map<char, seq<bool>>)
  {
    && (forall c | c in cache :: cache[c] != [])
    && (forall c, d | c in cache && d in cache && c != d :: !IsPrefix(cache[c], cache[d]))
  }

  /** The table read back from the tree framing undoes the codes the encoder
      took from the same tree. */
  lemma PathTableDecodes(root: HuffmanNode)
    requires NoDuplicates(LeafChars(root))
    ensures DecodesCodes(PathTable(root, []), CodeMap(root, []))
  {
    var table, cache := PathTable(root, []), CodeMap(root, []);
    forall c | c in cache ensures cache[c] in table && table[cache[c]] == Truncate(c) {
      CodeMapPath(root, [], c);
      assert cache[c][0..] == cache[c] && [] + cache[c] == cache[c];
      PathTableHas(root, [], cache[c], c);
    }
    forall k | k in table ensures exists c | c in cache :: cache[c] == k {
      PathTableKey(root, [], k);
      var c :| IsPathTo(root, k[0..], c);
      assert k[0..] == k && [] + k == k;
      CodeMapComplete(root, [], k, c);
    }
  }

  /** A tree with a branch at the root gives a prefix code. */
  lemma BranchCodesArePrefixCode(root: HuffmanNode)
    requires root.Branch?
    ensures PrefixCode(CodeMap(root, []))
  {
    var cache := CodeMap(root, []);
    forall c | c in cache ensures cache[c] != [] {
      CodeMapPath(root, [], c);
      assert cache[c][0..] == cache[c];
    }
    CodesPrefixFree(root);
  }

  // ---------------------------------------------------------------------------
  // The payload scan over a prefix code.

  /** Reading the rest of one code, bits `i..` of the code of `x`, emits `x`
      (cut to one byte) exactly when the code is complete: no shorter part of
      it is a key of the table. */
  lemma {:induction false} ScanCode(s: seq<bool>, pos: nat, table: Table, cache: map<char, seq<bool>>, x: char,
                                    i: nat, remaining: nat, output: seq<char>, end: nat)
    requires DecodesCodes(table, cache) && PrefixCode(cache)
    requires x in cache && i < |cache[x]| && remaining > 0
    requires At(s, pos, cache[x][i..]) && end == pos + |cache[x]| - i
    ensures ScanAt(s, pos, table, remaining, cache[x][..i], output)
            == ScanAt(s, end, table, remaining - 1, [], output + [Truncate(x)])
    decreases |cache[x]| - i
  {
    var code := cache[x];
    var goal := ScanAt(s, pos, table, remaining, code[..i], output);
    SplitAt(code, i);
    AtSplit(s, pos, [code[i]], code[i + 1..], pos + 1);
    BitRead(s, pos, code[i]);
    var next := code[..i] + [code[i]];
    if i + 1 == |code| {
      assert code[..i + 1] == code;
      ScanStep(s, pos, end, table, remaining, remaining - 1, code[..i], [], output, output + [Truncate(x)],
               code[i], goal);
    } else {
      ProperPrefixNotKey(table, cache, x, i + 1);
      ScanStep(s, pos, pos + 1, table, remaining, remaining, code[..i], next, output, output, code[i], goal);
      ScanCode(s, pos + 1, table, cache, x, i + 1, remaining, output, end);
    }
  }

  /** Reading one whole code emits its character and leaves the scan at the
      start of the next code. */
  lemma ScanWholeCode(s: seq<bool>, pos: nat, table: Table, cache: map<char, seq<bool>>, x: char,
                      remaining: nat, left: nat, output: seq<char>, emitted: seq<char>, end: nat)
    requires DecodesCodes(table, cache) && PrefixCode(cache)
    requires x in cache && remaining > 0 && At(s, pos, cache[x]) && end == pos + |cache[x]|
    requires left == remaining - 1 && emitted == output + [Truncate(x)]
    ensures ScanAt(s, pos, table, remaining, [], output) == ScanAt(s, end, table, left, [], emitted)
  {
    var code := cache[x];
    assert code[..0] == [] && code[0..] == code;
    ScanCode(s, pos, table, cache, x, 0, remaining, output, end);
  }

  /** Element `i` of `q` ends the prefix before it and starts the suffix from it. */
  lemma SplitAt<T>(q: seq<T>, i: nat)
    requires i < |q|
    ensures q[i..] == [q[i]] + q[i + 1..] && q[..i] + [q[i]] == q[..i + 1]
  {
  }

  /** No proper prefix of a code is a key of a table that undoes a prefix code. */
  lemma ProperPrefixNotKey(table: Table, cache: map<char, seq<bool>>, x: char, j: nat)
    requires DecodesCodes(table, cache) && PrefixCode(cache)
    requires x in cache && j < |cache[x]|
    ensures cache[x][..j] !in table
  {
    var prefix := cache[x][..j];
    forall d | d in cache ensures cache[d] != prefix {
      if d != x {
        assert !IsPrefix(cache[d], cache[x]);
        assert IsPrefix(prefix, cache[x]);
      }
    }
  }

  /** Truncation character by character: the first, then the rest. */
  lemma TruncateAllCons(input: seq<char>)
    requires input != []
    ensures TruncateAll(input) == [Truncate(input[0])] + TruncateAll(input[1..])
  {
  }

  /** The scan over the codes of `input` emits `input` cut to one byte per
      character, and goes on from right after the last code with the count
      it has left. */
  lemma {:induction false} ScanInput(s: seq<bool>, pos: nat, table: Table, cache: map<char, seq<bool>>,
                                     input: seq<char>, output: seq<char>, remaining: nat, extra: nat, end: nat)
    requires DecodesCodes(table, cache) && PrefixCode(cache)
    requires forall c | c in input :: c in cache
    requires At(s, pos, PayloadBits(input, cache)) && end == pos + |PayloadBits(input, cache)|
    requires remaining == |input| + extra
    ensures ScanAt(s, pos, table, remaining, [], output) == ScanAt(s, end, table, extra, [], output + TruncateAll(input))
    decreases |input|
  {
    if input == [] {
      assert output + TruncateAll(input) == output;
    } else {
      var x := input[0];
      var code := cache[x];
      var mid := pos + |code|;
      AtSplit(s, pos, code, PayloadBits(input[1..], cache), mid);
      var left, emitted := remaining - 1, output + [Truncate(x)];
      ScanWholeCode(s, pos, table, cache, x, remaining, left, output, emitted, mid);
      ScanInput(s, mid, table, cache, input[1..], emitted, left, extra, end);
      TruncateAllCons(input);
      Associative3(output, [Truncate(x)], TruncateAll(input[1..]));
      assert emitted + TruncateAll(input[1..]) == output + TruncateAll(input);
    }
  }

  // ---------------------------------------------------------------------------
  // The map framing read back.

  /** Dropping the padding and the terminator gives back the code. */
  lemma {:induction false} StripPaddingOfRecord(k: nat, code: seq<bool>)
    ensures StripPadding(Zeros(k) + [true] + code) == code
    decreases k
  {
    var bits := Zeros(k) + [true] + code;
    if k == 0 {
      assert bits == [true] + code;
    } else {
      assert bits[1..] == Zeros(k - 1) + [true] + code;
      StripPaddingOfRecord(k - 1, code);
    }
  }

  /** One record written for `c` reads back as its code and `c` cut to one byte. */
  lemma HashRecordReads(s: seq<bool>, pos: nat, c: char, code: seq<bool>, depth: nat)
    requires |code| <= depth && At(s, pos, Record(c, code, depth))
    ensures HashRecordAt(s, pos, depth) == Some((code, Truncate(c)))
  {
    var key := Zeros(depth - |code|) + [true] + code;
    AtSplit(s, pos, key, U8Bits(ByteOf(c)), pos + depth + 1);
    ReadU8Written(s, pos + depth + 1, ByteOf(c));
    StripPaddingOfRecord(depth - |code|, code);
  }

  /** `table` with each character of `order` bound, in turn, under its code
      (cut to one byte), a later binding replacing an earlier one. */
  function InsertAll(table: Table, cache: map<char, seq<bool>>, order: seq<char>): Table
    requires forall c | c in order :: c in cache
    decreases |order|
  {
    if order == [] then table
    else InsertAll(table[cache[order[0]] := Truncate(order[0])], cache, order[1..])
  }

  /** The records written in `order` read back as `InsertAll` of them, the
      cursor ending past the last. */
  lemma {:induction false} HashRecordsRead(s: seq<bool>, pos: nat, depth: nat, cache: map<char, seq<bool>>,
                                           order: seq<char>, table: Table, end: nat)
    requires CodesFit(cache, depth) && forall c | c in order :: c in cache
    requires At(s, pos, Records(cache, order, depth)) && end == pos + |Records(cache, order, depth)|
    ensures HashRecordsAt(s, pos, depth, |order|, table) == Some(Decoded(InsertAll(table, cache, order), end))
    decreases |order|
  {
    if order != [] {
      var c := order[0];
      var record := Record(c, cache[c], depth);
      var mid := pos + depth + 9;
      var inserted := table[cache[c] := Truncate(c)];
      AtSplit(s, pos, record, Records(cache, order[1..], depth), mid);
      HashRecordReads(s, pos, c, cache[c], depth);
      HashRecordsStep(s, pos, mid, depth, |order|, |order[1..]|, table, (cache[c], Truncate(c)), inserted,
                      HashRecordsAt(s, pos, depth, |order|, table));
      HashRecordsRead(s, mid, depth, cache, order[1..], inserted, end);
    }
  }

  /** A sequence without repeats has as many distinct elements as entries. */
  lemma {:induction false} NoDuplicatesCard<T>(s: seq<T>)
    requires NoDuplicates(s)
    ensures |set x | x in s| == |s|
    decreases |s|
  {
    if s != [] {
      var init := s[..|s| - 1];
      assert NoDuplicates(init) by {
        forall i, j | 0 <= i < j < |init| ensures init[i] != init[j] {
          assert init[i] == s[i] && init[j] == s[j];
        }
      }
      NoDuplicatesCard(init);
      assert s[|s| - 1] !in init by {
        forall i | 0 <= i < |init| ensures init[i] != s[|s| - 1] {
          assert init[i] == s[i];
        }
      }
      assert (set x | x in s) == (set x | x in init) + {s[|s| - 1]} by {
        assert s == init + [s[|s| - 1]];
      }
    }
  }

  /** An enumeration of the keys has one entry per key: the record count
      `hash_map_encode` writes is the number of records it writes. */
  lemma EnumerationLength(order: seq<char>, cache: map<char, seq<bool>>)
    requires IsEnumeration(order, cache)
    ensures |order| == |cache|
  {
    NoDuplicatesCard(order);
    assert (set x | x in order) == cache.Keys;
  }

  /** The count and the width, then the records. */
  lemma HashMapHeaders(s: seq<bool>, pos: nat, table: Table, count: nat, depth: nat)
    requires count < 65536 && depth < 65535
    requires At(s, pos, U16Bits(U16Of(count)) + U16Bits(U16Of(depth)))
    ensures HashMapDecodeAt(s, pos, table) == HashRecordsAt(s, pos + 32, depth, count, table)
  {
    AtSplit(s, pos, U16Bits(U16Of(count)), U16Bits(U16Of(depth)), pos + 16);
    ReadU16Written(s, pos, U16Of(count));
    ReadU16Written(s, pos + 16, U16Of(depth));
    U16Exact(count);
    U16Exact(depth);
  }

  /** `hash_map_decode` reads back what `hash_map_encode` wrote, as long as
      the entry count fits 16 bits and `highest_depth + 1` does too. */
  lemma HashFramingReadBack(cache: map<char, seq<bool>>, depth: nat, order: seq<char>,
                            s: seq<bool>, pos: nat, table: Table, end: nat)
    requires IsEnumeration(order, cache) && CodesFit(cache, depth)
    requires |cache| < 65536 && depth < 65535
    requires At(s, pos, HashMapBits(cache, depth, order)) && end == pos + |HashMapBits(cache, depth, order)|
    ensures HashMapDecodeAt(s, pos, table) == Some(Decoded(InsertAll(table, cache, order), end))
  {
    var headers := U16Bits(U16Of(|cache|)) + U16Bits(U16Of(depth));
    AtSplit(s, pos, headers, Records(cache, order, depth), pos + 32);
    EnumerationLength(order, cache);
    HashMapHeaders(s, pos, table, |cache|, depth);
    HashRecordsRead(s, pos + 32, depth, cache, order, table, end);
  }

  /** A key that is no code of `order` keeps its binding. */
  lemma {:induction false} InsertAllKeeps(table: Table, cache: map<char, seq<bool>>, order: seq<char>, k: seq<bool>)
    requires forall c | c in order :: c in cache && cache[c] != k
    requires k in table
    ensures k in InsertAll(table, cache, order) && InsertAll(table, cache, order)[k] == table[k]
    decreases |order|
  {
    if order != [] {
      InsertAllKeeps(table[cache[order[0]] := Truncate(order[0])], cache, order[1..], k);
    }
  }

  /** After the insertions every key is an old key or a code of `order`. */
  lemma {:induction false} InsertAllKeys(table: Table, cache: map<char, seq<bool>>, order: seq<char>)
    requires forall c | c in order :: c in cache
    ensures forall k | k in InsertAll(table, cache, order) :: k in table || exists c | c in order :: cache[c] == k
    decreases |order|
  {
    if order != [] {
      InsertAllKeys(table[cache[order[0]] := Truncate(order[0])], cache, order[1..]);
    }
  }

  /** With distinct characters under distinct codes, each code ends up bound
      to its own character. */
  lemma {:induction false} InsertAllBinds(table: Table, cache: map<char, seq<bool>>, order: seq<char>)
    requires forall c | c in order :: c in cache
    requires NoDuplicates(order)
    requires forall c, d | c in order && d in order && c != d :: cache[c] != cache[d]
    ensures forall c | c in order ::
              cache[c] in InsertAll(table, cache, order) && InsertAll(table, cache, order)[cache[c]] == Truncate(c)
    decreases |order|
  {
    if order != [] {
      var h, rest := order[0], order[1..];
      var inserted := table[cache[h] := Truncate(h)];
      assert NoDuplicates(rest) by {
        forall i, j | 0 <= i < j < |rest| ensures rest[i] != rest[j] {
          assert rest[i] == order[i + 1] && rest[j] == order[j + 1];
        }
      }
      assert h !in rest by {
        forall i | 0 <= i < |rest| ensures rest[i] != h {
          assert rest[i] == order[i + 1];
        }
      }
      InsertAllBinds(inserted, cache, rest);
      InsertAllKeeps(inserted, cache, rest, cache[h]);
    }
  }

  /** The table read back from the map framing undoes a prefix code. */
  lemma InsertAllDecodes(cache: map<char, seq<bool>>, order: seq<char>)
    requires IsEnumeration(order, cache) && PrefixCode(cache)
    ensures DecodesCodes(InsertAll(map[], cache, order), cache)
  {
    forall c, d | c in order && d in order && c != d ensures cache[c] != cache[d] {
      assert !IsPrefix(cache[c], cache[d]);
    }
    InsertAllBinds(map[], cache, order);
    InsertAllKeys(map[], cache, order);
  }

  // ---------------------------------------------------------------------------
  // The payload read back.

  /** The length header, then the codes: with the header counting the
      characters, `input` comes back cut to one byte per character. */
  lemma PayloadReadBack(s: seq<bool>, pos: nat, table: Table, cache: map<char, seq<bool>>, input: seq<char>)
    requires DecodesCodes(table, cache) && PrefixCode(cache)
    requires (forall c | c in input :: c in cache) && |input| < 65536
    requires At(s, pos, U16Bits(U16Of(|input|)) + PayloadBits(input, cache))
    ensures PayloadAt(s, pos, table) == Some(TruncateAll(input))
  {
    var n, count, start := U16Of(|input|), |input|, pos + 16;
    AtSplit(s, pos, U16Bits(n), PayloadBits(input, cache), start);
    assert ReadU16At(s, pos) == Some(n) && U16Value(n) == count by {
      ReadU16Written(s, pos, n);
      U16Exact(count);
    }
    assert ScanAt(s, start, table, count, [], []) == Some(TruncateAll(input)) by {
      var end := start + |PayloadBits(input, cache)|;
      var t := TruncateAll(input);
      ScanInput(s, start, table, cache, input, [], count, 0, end);
      EmptyConcat(t);
    }
    PayloadFrom(s, pos, table, n, count, start, Some(TruncateAll(input)));
  }

  lemma EmptyConcat<T>(q: seq<T>)
    ensures [] + q == q
  {
  }

  /** The header read gives the count the scan runs for. */
  lemma PayloadFrom(s: seq<bool>, pos: nat, table: Table, n: bv16, count: nat, start: nat, r: Option<seq<char>>)
    requires ReadU16At(s, pos) == Some(n) && U16Value(n) == count && start == pos + 16
    requires ScanAt(s, start, table, count, [], []) == r
    ensures PayloadAt(s, pos, table) == r
  {
  }

  /** A table whose only key is the empty path never matches: every key the
      scan tries has at least one bit, so it reads on until the stream ends. */
  lemma {:induction false} ScanNeverMatches(s: seq<bool>, pos: nat, table: Table, remaining: nat,
                                            current: seq<bool>, output: seq<char>)
    requires forall k | k in table :: k == []
    requires remaining > 0
    ensures ScanAt(s, pos, table, remaining, current, output) == Option.None
    decreases |s| - pos
  {
    if pos < |s| {
      var next := current + [s[pos]];
      assert next !in table by {
        assert |next| > 0;
      }
      ScanNeverMatches(s, pos + 1, table, remaining, next, output);
    }
  }

  // ---------------------------------------------------------------------------
  // Facts about the tree `compress` builds.

  /** At most `n` distinct characters lie below `n`. */
  lemma {:induction false} FewBelow(d: seq<char>, n: nat)
    requires NoDuplicates(d)
    requires forall i | 0 <= i < |d| :: d[i] as int < n
    ensures |d| <= n
    decreases |d|
  {
    if d != [] {
      var x, rest := d[|d| - 1], d[..|d| - 1];
      assert NoDuplicates(rest) by {
        forall i, j | 0 <= i < j < |rest| ensures rest[i] != rest[j] {
          assert rest[i] == d[i] && rest[j] == d[j];
        }
      }
      assert forall i | 0 <= i < |rest| :: rest[i] != x by {
        forall i | 0 <= i < |rest| ensures rest[i] != x {
          assert rest[i] == d[i];
        }
      }
      var top := n - 1;
      if j :| 0 <= j < |rest| && rest[j] as int == top {
        var smaller := rest[j := x];
        assert x as int != top;
        assert NoDuplicates(smaller) by {
          forall a, b | 0 <= a < b < |smaller| ensures smaller[a] != smaller[b] {
            if a != j && b != j {
              assert smaller[a] == rest[a] && smaller[b] == rest[b];
            }
          }
        }
        forall i | 0 <= i < |smaller| ensures smaller[i] as int < top {
          if i != j {
            assert rest[i] != rest[j];
            assert rest[i] as int != top;
            assert rest[i] == d[i];
          }
        }
        FewBelow(smaller, top);
      } else {
        forall i | 0 <= i < |rest| ensures rest[i] as int < top {
          assert rest[i] == d[i];
        }
        FewBelow(rest, top);
      }
    }
  }

  /** The tree for ASCII text has at most 128 leaves. */
  lemma AsciiLeaves(root: HuffmanNode, input: seq<char>)
    requires IsTreeOver(root, input) && IsAscii(input)
    ensures |Leaves(root)| <= 128
  {
    HuffmanTreeLeaves(root, input);
    var chars := LeafChars(root);
    forall i | 0 <= i < |chars| ensures chars[i] as int < 128 {
      assert chars[i] in input;
    }
    FewBelow(chars, 128);
  }

  /** The tree has one leaf per distinct character. */
  lemma LeafCount(root: HuffmanNode, input: seq<char>)
    requires IsTreeOver(root, input)
    ensures |Leaves(root)| == |Distinct(input)|
  {
    assert |multiset(Leaves(root))| == |multiset(FrequencyValues(input))|;
  }

  /** The scan emits exactly `remaining` more characters whenever it succeeds. */
  lemma {:induction false} ScanLength(s: seq<bool>, pos: nat, table: Table, remaining: nat,
                                      current: seq<bool>, output: seq<char>)
    ensures var r := ScanAt(s, pos, table, remaining, current, output);
            r.Some? ==> |r.value| == |output| + remaining
    decreases |s| - pos
  {
    if remaining > 0 && pos < |s| {
      var next := current + [s[pos]];
      if next in table {
        ScanLength(s, pos + 1, table, remaining - 1, [], output + [table[next]]);
      } else {
        ScanLength(s, pos + 1, table, remaining, next, output);
      }
    }
  }

  /** With every code empty the payload is empty. */
  lemma {:induction false} EmptyCodesPayload(input: seq<char>, cache: map<char, seq<bool>>)
    requires forall c | c in input :: c in cache && cache[c] == []
    ensures PayloadBits(input, cache) == []
    decreases |input|
  {
    if input != [] {
      EmptyCodesPayload(input[1..], cache);
    }
  }

  // ---------------------------------------------------------------------------
  // From text to bits and back.

  /** What the codes of the tree for `input` give the decoder, with at least
      two distinct characters: a table that undoes a prefix code covering
      every character of `input`, from a complete tree with one leaf per
      distinct character. */
  lemma TreeCodes(root: HuffmanNode, input: seq<char>)
    requires IsTreeOver(root, input) && |Distinct(input)| >= 2
    ensures IsComplete(root) && |Leaves(root)| == |Distinct(input)|
    ensures forall c | c in input :: c in CodeMap(root, [])
    ensures DecodesCodes(PathTable(root, []), CodeMap(root, [])) && PrefixCode(CodeMap(root, []))
  {
    WellFormedIsComplete(root);
    CodeLengths(root, input);
    HuffmanTreeLeaves(root, input);
    CodeMapKeys(root, []);
    LeafCount(root, input);
    PathTableDecodes(root);
    BranchCodesArePrefixCode(root);
  }

  /** A framing, a header and a payload, then padding: each part stands where
      the previous one ends. */
  lemma StreamLayout(framing: seq<bool>, header: seq<bool>, payload: seq<bool>, k: nat, s: seq<bool>, mid: nat)
    requires s == framing + header + payload + Zeros(k) && mid == |framing|
    ensures At(s, 0, framing) && At(s, mid, header + payload)
  {
    var written := framing + header + payload;
    assert s[0..|written|] == written;
    Associative3(framing, header, payload);
    AtSplit(s, 0, framing, header + payload, mid);
  }

  lemma EmptyUnion<K, V>(m: map<K, V>)
    ensures map[] + m == m
  {
  }

  /** The tree framing read into an empty table: the decoder's start. */
  lemma TreeStructDecompressFrom(s: seq<bool>, d: Decoded, r: Option<seq<char>>)
    requires TreeStructDecodeAt(s, 0, map[]) == Some(d) && PayloadAt(s, d.pos, d.table) == r
    ensures TreeStructDecompressAt(s, 0) == r
  {
  }

  /** What `compress` would write if its length header counted characters,
      as the decoder's loop does, instead of UTF-8 bytes. */
  function CountedCompressedBits(input: seq<char>, root: HuffmanNode): seq<bool>
    requires forall c | c in input :: c in CodeMap(root, [])
  {
    TreeStructBits(root) + U16Bits(U16Of(|input|)) + PayloadBits(input, CodeMap(root, []))
  }

  /** With the header counting characters, the tree framing reader gives
      back every text of two or more distinct characters (fewer than 8192 of
      them, so the framing's bit count fits 16 bits), each character cut to
      one byte, whatever padding follows. */
  lemma CountedRoundTrip(input: seq<char>, root: HuffmanNode, k: nat)
    requires IsTreeOver(root, input)
    requires 2 <= |Distinct(input)| < 8192 && |input| < 65536
    ensures && (forall c | c in input :: c in CodeMap(root, []))
            && TreeStructDecompressAt(CountedCompressedBits(input, root) + Zeros(k), 0) == Some(TruncateAll(input))
  {
    TreeCodes(root, input);
    var cache, table := CodeMap(root, []), PathTable(root, []);
    var framing, header, payload := TreeStructBits(root), U16Bits(U16Of(|input|)), PayloadBits(input, cache);
    var s := CountedCompressedBits(input, root) + Zeros(k);
    StreamLayout(framing, header, payload, k, s, |framing|);
    TreeFramingReadBack(root, s, 0, map[], |framing|);
    EmptyUnion(table);
    PayloadReadBack(s, |framing|, table, cache, input);
  }

  /** `compress` then `decompress` with the tree framing: ASCII text of two
      or more distinct characters, shorter than 65536, comes back unchanged. */
  lemma AsciiRoundTrip(input: seq<char>, root: HuffmanNode, k: nat)
    requires IsTreeOver(root, input) && IsAscii(input)
    requires |Distinct(input)| >= 2 && |input| < 65536
    ensures && (forall c | c in input :: c in CodeMap(root, []))
            && TreeStructDecompressAt(CompressedBits(input, root) + Zeros(k), 0) == Some(input)
  {
    AsciiLeaves(root, input);
    LeafCount(root, input);
    Utf8LenAscii(input);
    TruncateAscii(input);
    CountedRoundTrip(input, root, k);
  }

  /** A text of one distinct character never comes back: its only code is
      empty, no key of one bit or more ever matches, and the scan runs off
      the stream, unless the header it wrote (the UTF-8 byte count cut to 16
      bits) is 0, which asks for no characters. */
  lemma SingleSymbolResult(input: seq<char>, root: HuffmanNode, k: nat)
    requires IsTreeOver(root, input) && |Distinct(input)| == 1
    ensures && (forall c | c in input :: c in CodeMap(root, []))
            && TreeStructDecompressAt(CompressedBits(input, root) + Zeros(k), 0)
               == if Utf8Len(input) % 65536 == 0 then Some([]) else Option.None
  {
    CodeLengths(root, input);
    WellFormedIsComplete(root);
    HuffmanTreeLeaves(root, input);
    LeafCount(root, input);
    var cache, table := CodeMap(root, []), PathTable(root, []);
    var n := U16Of(Utf8Len(input));
    var framing, header, payload := TreeStructBits(root), U16Bits(n), PayloadBits(input, cache);
    EmptyCodesPayload(input, cache);
    var s := CompressedBits(input, root) + Zeros(k);
    StreamLayout(framing, header, payload, k, s, |framing|);
    TreeFramingReadBack(root, s, 0, map[], |framing|);
    EmptyUnion(table);
    AtSplit(s, |framing|, header, payload, |framing| + 16);
    ReadU16Written(s, |framing|, n);
    U16ValueOf(Utf8Len(input));
    if U16Value(n) > 0 {
      ScanNeverMatches(s, |framing| + 16, table, U16Value(n), [], []);
    }
  }

  /** For ASCII text the map framing's entry count and code width are small. */
  lemma AsciiMapSizes(root: HuffmanNode, input: seq<char>, order: seq<char>)
    requires IsTreeOver(root, input) && IsAscii(input)
    requires IsEnumeration(order, CodeMap(root, []))
    ensures |CodeMap(root, [])| <= 128 && Height(root) <= 127
  {
    WellFormedIsComplete(root);
    AsciiLeaves(root, input);
    HeightBound(root);
    EnumerationLength(order, CodeMap(root, []));
    HuffmanTreeLeaves(root, input);
    CodeMapKeys(root, []);
    forall i | 0 <= i < |order| ensures order[i] as int < 128 {
      assert order[i] in input;
    }
    FewBelow(order, 128);
  }

  /** `compress` then `decompress` with the map framing, for any order the
      map yields its entries in: ASCII text of two or more distinct
      characters, shorter than 65536, comes back unchanged. */
  lemma HashMapRoundTrip(input: seq<char>, root: HuffmanNode, order: seq<char>, k: nat)
    requires IsTreeOver(root, input) && IsAscii(input)
    requires |Distinct(input)| >= 2 && |input| < 65536
    requires IsEnumeration(order, CodeMap(root, []))
    ensures && (forall c | c in input :: c in CodeMap(root, []))
            && DecompressAt(HashMapCompressedBits(input, root, order) + Zeros(k), 0) == Some(input)
  {
    TreeCodes(root, input);
    AsciiMapSizes(root, input, order);
    CodesFitHeight(root);
    var cache, depth := CodeMap(root, []), Height(root);
    var table := InsertAll(map[], cache, order);
    InsertAllDecodes(cache, order);
    Utf8LenAscii(input);
    TruncateAscii(input);
    var framing, header, payload := HashMapBits(cache, depth, order), U16Bits(U16Of(|input|)), PayloadBits(input, cache);
    var s := HashMapCompressedBits(input, root, order) + Zeros(k);
    StreamLayout(framing, header, payload, k, s, |framing|);
    HashFramingReadBack(cache, depth, order, s, 0, map[], |framing|);
    PayloadReadBack(s, |framing|, table, cache, input);
  }

  /** The map framing read into an empty table: the shipped decoder's start. */
  lemma DecompressFrom(s: seq<bool>, d: Decoded, r: Option<seq<char>>)
    requires HashMapDecodeAt(s, 0, map[]) == Some(d) && PayloadAt(s, d.pos, d.table) == r
    ensures DecompressAt(s, 0) == r
  {
  }

  // ---------------------------------------------------------------------------
  // The length header counts UTF-8 bytes.

  /** With the header `compress` writes, no text with a character outside
      ASCII comes back: the decoder emits as many characters as the text has
      UTF-8 bytes, which is more than it has characters. */
  lemma NonAsciiNeverRoundTrips(input: seq<char>, root: HuffmanNode, k: nat)
    requires IsTreeOver(root, input) && !IsAscii(input)
    requires Utf8Len(input) < 65536 && |Distinct(input)| < 8192
    ensures && (forall c | c in input :: c in CodeMap(root, []))
            && TreeStructDecompressAt(CompressedBits(input, root) + Zeros(k), 0) != Some(input)
  {
    WellFormedIsComplete(root);
    HuffmanTreeLeaves(root, input);
    CodeMapKeys(root, []);
    LeafCount(root, input);
    var cache, table := CodeMap(root, []), PathTable(root, []);
    var count := Utf8Len(input);
    var n := U16Of(count);
    var framing, header, payload := TreeStructBits(root), U16Bits(n), PayloadBits(input, cache);
    var s := CompressedBits(input, root) + Zeros(k);
    StreamLayout(framing, header, payload, k, s, |framing|);
    assert TreeStructDecodeAt(s, 0, map[]) == Some(Decoded(table, |framing|)) by {
      TreeFramingReadBack(root, s, 0, map[], |framing|);
      EmptyUnion(table);
    }
    var start := |framing| + 16;
    assert ReadU16At(s, |framing|) == Some(n) && U16Value(n) == count by {
      AtSplit(s, |framing|, header, payload, start);
      ReadU16Written(s, |framing|, n);
      U16Exact(count);
    }
    var r := ScanAt(s, start, table, count, [], []);
    ScanLength(s, start, table, count, [], []);
    Utf8LenAscii(input);
    PayloadFrom(s, |framing|, table, n, count, start, r);
    TreeStructDecompressFrom(s, Decoded(table, |framing|), r);
  }

  /** The tree of two leaves counted once each, `a` on the `false` side. */
  function TwoLeafTree(a: char, b: char): HuffmanNode
  {
    Branch(HuffmanBranch(Value(HuffmanValue(a, 1)), Value(HuffmanValue(b, 1)), 2))
  }

  /** The text `a` `b` has two leaves counted once each, in that order, and
      the two-leaf tree with `b` on the `false` side holds them. */
  lemma TwoLeafTreeFor(a: char, b: char)
    requires a != b
    ensures Frequencies([a, b]) == [Value(HuffmanValue(a, 1)), Value(HuffmanValue(b, 1))]
    ensures IsTreeOver(TwoLeafTree(b, a), [a, b]) && |Distinct([a, b])| == 2
  {
    var input := [a, b];
    assert input[..1] == [a];
    assert Distinct([a]) == [a] by {
      assert [a][..0] == [];
    }
    assert Distinct(input) == [a, b];
    assert multiset(input)[a] == 1 && multiset(input)[b] == 1;
    assert FrequencyValues(input) == [HuffmanValue(a, 1), HuffmanValue(b, 1)];
  }

  /** The merge loop's tree for the text `a` `b`: both counts are 1, so the
      stable sort keeps `a` before `b`, and the loop pops `b` first, as `t`.
      No other tree is a Huffman tree for that text. */
  lemma TwoLeafHuffmanTree(a: char, b: char, root: HuffmanNode)
    requires a != b
    ensures IsHuffmanTreeFor(root, [a, b]) <==> root == TwoLeafTree(b, a)
  {
    TwoLeafTreeFor(a, b);
    var x, y := Value(HuffmanValue(a, 1)), Value(HuffmanValue(b, 1));
    var sorted := SortByCount([x, y]);
    assert sorted == [x, y] by {
      assert [x, y][..1] == [x] && [x][..0] == [];
      assert SortByCount([x]) == [x];
      assert InsertByCount(y, [x]) == [x] + InsertByCount(y, []);
    }
    var tree := TwoLeafTree(b, a);
    assert Merged(sorted, 0) == [tree];
    assert MergeSteps(sorted, [0], [tree]) by {
      assert [0][1..] == [];
    }
    if IsHuffmanTreeFor(root, [a, b]) {
      var positions :| MergeSteps(sorted, positions, [root]);
      assert positions != [] && positions[0] == 0;
      assert MergeSteps([tree], positions[1..], [root]);
    }
  }

  /** Its leaves, their characters and its shape. */
  lemma TwoLeafShape(a: char, b: char)
    ensures Leaves(TwoLeafTree(a, b)) == [HuffmanValue(a, 1), HuffmanValue(b, 1)]
    ensures LeafChars(TwoLeafTree(a, b)) == [a, b]
    ensures ShapeBits(TwoLeafTree(a, b)) == [true, false, false]
  {
    assert [true] + [false] + [false] == [true, false, false];
  }

  /** Its codes: one bit each. */
  lemma TwoLeafCodes(a: char, b: char)
    requires a != b
    ensures CodeMap(TwoLeafTree(a, b), []) == map[a := [false], b := [true]]
  {
    assert [] + [false] == [false] && [] + [true] == [true];
  }

  /** The codes of a text of two characters. */
  lemma TwoCharPayload(a: char, b: char, cache: map<char, seq<bool>>)
    requires a in cache && b in cache
    ensures PayloadBits([a, b], cache) == cache[a] + cache[b]
  {
    assert [a, b][1..] == [b] && [b][1..] == [];
    assert PayloadBits([b], cache) == cache[b] + [];
  }

  /** The padding after what was written reads as `false`. */
  lemma PaddingBit(written: seq<bool>, k: nat, p: nat)
    requires p == |written| && 0 < k
    ensures At(written + Zeros(k), p, [false])
  {
    assert (written + Zeros(k))[p] == Zeros(k)[0];
  }

  /** A character that survives the one-byte trip. */
  lemma TruncateByte(c: char)
    requires c as int < 256
    ensures Truncate(c) == c
  {
    SmallMod(c as int, 256);
  }

  /** The codes of the text `a` `b` under its Huffman tree. */
  lemma TwoLeafPayload(a: char, b: char)
    requires a != b
    ensures && CodeMap(TwoLeafTree(b, a), []) == map[b := [false], a := [true]]
            && PayloadBits([a, b], CodeMap(TwoLeafTree(b, a), [])) == [true, false]
  {
    TwoLeafCodes(b, a);
    TwoCharPayload(a, b, CodeMap(TwoLeafTree(b, a), []));
  }

  /** A character of two UTF-8 bytes then one of one byte, both below 256:
      three bytes, and the one-byte trip keeps both. */
  lemma TwoByteText(a: char, b: char)
    requires 128 <= a as int < 256 && b as int < 128
    ensures Utf8Len([a, b]) == 3
    ensures TruncateAll([a, b]) == [a, b] && [a, b] + [Truncate(b)] == [a, b, b]
  {
    assert [a, b][1..] == [b] && [b][1..] == [];
    TruncateByte(a);
    TruncateByte(b);
    assert TruncateAll([a, b])[0] == a && TruncateAll([a, b])[1] == b;
  }

  /** The text `a` `b`, with `a` taking two UTF-8 bytes and `b` one, both
      below 256, comes back as `a` `b` `b`: its Huffman tree gives `b` the
      code `false` and `a` the code `true`, the header says three, the UTF-8
      byte count, and the third code read is the `false` bit of padding,
      the code of `b`. */
  lemma TwoByteLeadGrows(a: char, b: char, root: HuffmanNode)
    requires 128 <= a as int < 256 && b as int < 128
    requires IsHuffmanTreeFor(root, [a, b])
    ensures && (forall c | c in [a, b] :: c in CodeMap(root, []))
            && TreeStructDecompressAt(CompressedBits([a, b], root) + Zeros(11), 0) == Some([a, b, b])
  {
    TwoLeafHuffmanTree(a, b, root);
    var input := [a, b];
    TwoLeafTreeFor(a, b);
    TwoLeadLayout(a, b);
    var cache, table := CodeMap(root, []), PathTable(root, []);
    var s := CompressedBits(input, root) + Zeros(11);
    var n := U16Of(3);
    assert TreeStructDecodeAt(s, 0, map[]) == Some(Decoded(table, 35)) by {
      TreeCodes(root, input);
      TreeFramingReadBack(root, s, 0, map[], 35);
      EmptyUnion(table);
    }
    assert ReadU16At(s, 35) == Some(n) && U16Value(n) == 3 by {
      ReadU16Written(s, 35, n);
      U16Exact(3);
    }
    var grown := [a, b, b];
    TwoLeadScan(a, b, s);
    PayloadFrom(s, 35, table, n, 3, 51, Some(grown));
    TreeStructDecompressFrom(s, Decoded(table, 35), Some(grown));
  }

  /** A scan asked for one character more than the codes of `input` hold
      reads on into whatever follows them: there the code of `x`. */
  lemma ScanOneMore(s: seq<bool>, pos: nat, mid: nat, end: nat, table: Table, cache: map<char, seq<bool>>,
                    input: seq<char>, x: char, result: seq<char>)
    requires DecodesCodes(table, cache) && PrefixCode(cache)
    requires (forall c | c in input :: c in cache) && x in cache
    requires At(s, pos, PayloadBits(input, cache)) && mid == pos + |PayloadBits(input, cache)|
    requires At(s, mid, cache[x]) && end == mid + |cache[x]|
    requires result == TruncateAll(input) + [Truncate(x)]
    ensures ScanAt(s, pos, table, |input| + 1, [], []) == Some(result)
  {
    var text := TruncateAll(input);
    ScanInput(s, pos, table, cache, input, [], |input| + 1, 1, mid);
    EmptyConcat(text);
    ScanWholeCode(s, mid, table, cache, x, 1, 0, text, result, end);
  }

  /** The scan of the stream for the text `a` `b`, asked for three characters. */
  lemma TwoLeadScan(a: char, b: char, s: seq<bool>)
    requires 128 <= a as int < 256 && b as int < 128
    requires (forall c | c in [a, b] :: c in CodeMap(TwoLeafTree(b, a), []))
             && s == CompressedBits([a, b], TwoLeafTree(b, a)) + Zeros(11)
    requires At(s, 51, PayloadBits([a, b], CodeMap(TwoLeafTree(b, a), []))) && At(s, 53, [false])
    ensures ScanAt(s, 51, PathTable(TwoLeafTree(b, a), []), 3, [], []) == Some([a, b, b])
  {
    var input, root := [a, b], TwoLeafTree(b, a);
    TwoLeafTreeFor(a, b);
    TreeCodes(root, input);
    TwoLeafPayload(a, b);
    TwoByteText(a, b);
    ScanOneMore(s, 51, 53, 54, PathTable(root, []), CodeMap(root, []), input, b, [a, b, b]);
  }

  /** Where the parts of the stream for the text `a` `b` lie. */
  lemma TwoLeadLayout(a: char, b: char)
    requires 128 <= a as int < 256 && b as int < 128
    ensures && (forall c | c in [a, b] :: c in CodeMap(TwoLeafTree(b, a), []))
            && var root := TwoLeafTree(b, a);
               var s := CompressedBits([a, b], root) + Zeros(11);
               && At(s, 0, TreeStructBits(root)) && |TreeStructBits(root)| == 35
               && At(s, 35, U16Bits(U16Of(3)))
               && At(s, 51, PayloadBits([a, b], CodeMap(root, [])))
               && At(s, 53, [false])
  {
    var input, root := [a, b], TwoLeafTree(b, a);
    TwoLeafPayload(a, b);
    var cache := CodeMap(root, []);
    var n := U16Of(3);
    var framing, header, payload := TreeStructBits(root), U16Bits(n), PayloadBits(input, cache);
    assert |framing| == 35 by {
      TwoLeafShape(b, a);
    }
    TwoByteText(a, b);
    var written := CompressedBits(input, root);
    var s := written + Zeros(11);
    StreamLayout(framing, header, payload, 11, s, 35);
    AtSplit(s, 35, header, payload, 51);
    PaddingBit(written, 11, 53);
  }

  /** The text "\U{E9}a" comes back as "\U{E9}aa". */
  lemma AccentedTextGrows(root: HuffmanNode)
    requires IsHuffmanTreeFor(root, "\U{E9}a")
    ensures && (forall c | c in "\U{E9}a" :: c in CodeMap(root, []))
            && TreeStructDecompressAt(CompressedBits("\U{E9}a", root) + Zeros(11), 0) == Some("\U{E9}aa")
  {
    TwoByteLeadGrows('\U{E9}', 'a', root);
  }

  // ---------------------------------------------------------------------------
  // The shipped decoder reads the map framing.

  /** A bit set at `i` puts at least `2^i` into the number. */
  lemma {:induction false} BitsValueAtLeast(bits: seq<bool>, i: nat)
    requires i < |bits| && bits[i]
    ensures BitsValue(bits) >= Pow2(i)
    decreases i
  {
    if i > 0 {
      BitsValueAtLeast(bits[1..], i - 1);
    }
  }

  /** The number bits stand for, split where `x` ends. */
  lemma {:induction false} BitsValueConcat(x: seq<bool>, y: seq<bool>)
    ensures BitsValue(x + y) == BitsValue(x) + Pow2(|x|) * BitsValue(y)
    decreases |x|
  {
    if x != [] {
      assert (x + y)[0] == x[0] && (x + y)[1..] == x[1..] + y;
      BitsValueConcat(x[1..], y);
      var p, v := Pow2(|x| - 1), BitsValue(y);
      DoubleProduct(p, v, Pow2(|x|));
    } else {
      assert x + y == y;
    }
  }

  lemma DoubleProduct(p: nat, v: nat, q: nat)
    requires q == 2 * p
    ensures q * v == 2 * (p * v)
  {
  }

  /** Two character bytes read as one `u16`: the first is the low byte. */
  lemma TwoBytesValue(a: char, b: char, width: bv16)
    requires U16Bits(width) == CharBytes([a, b])
    ensures U16Value(width) == (a as int) % 256 + 256 * ((b as int) % 256)
  {
    assert CharBytes([a, b]) == U8Bits(ByteOf(a)) + U8Bits(ByteOf(b)) by {
      assert [a, b][..1] == [a] && [a][..0] == [];
    }
    BitsValueConcat(U8Bits(ByteOf(a)), U8Bits(ByteOf(b)));
    Pow2Widths();
  }

  /** Where the tree framing of the text `a` `b` puts the leaf count and
      the two character bytes, `b` first, and how long the stream is. */
  lemma TwoLeafLayout(a: char, b: char, k: nat)
    requires a != b
    ensures && (forall c | c in [a, b] :: c in CodeMap(TwoLeafTree(b, a), []))
            && var s := CompressedBits([a, b], TwoLeafTree(b, a)) + Zeros(k);
               && |s| == 53 + k && ReadU16At(s, 0) == Some(U16Of(2))
               && ReadU16At(s, 16) == Some(ShiftIn16(CharBytes([b, a])))
  {
    var input, root := [a, b], TwoLeafTree(b, a);
    TwoLeafPayload(a, b);
    var cache := CodeMap(root, []);
    var count, chars := U16Of(2), CharBytes([b, a]);
    var framing, header, payload := TreeStructBits(root), U16Bits(U16Of(Utf8Len(input))), PayloadBits(input, cache);
    assert framing == U16Bits(count) + chars + [true, false, false] by {
      TwoLeafShape(b, a);
    }
    TwoLeafPayload(a, b);
    var s := CompressedBits(input, root) + Zeros(k);
    StreamLayout(framing, header, payload, k, s, 35);
    AtSplit(s, 0, U16Bits(count) + chars, [true, false, false], 32);
    AtSplit(s, 0, U16Bits(count), chars, 16);
    ReadU16Written(s, 0, count);
  }

  /** A map framing that announces at least one record whose key is wider
      than what is left of the stream decodes to nothing. */
  lemma FirstRecordPastEnd(s: seq<bool>, count: bv16, width: bv16)
    requires ReadU16At(s, 0) == Some(count) && U16Value(count) >= 1
    requires ReadU16At(s, 16) == Some(width) && 32 + U16Value(width) >= |s|
    ensures DecompressAt(s, 0) == Option.None
  {
  }

  /** `compress` writes the tree framing but `decompress` reads the map
      framing. For a text of two characters `a` `b` it takes the entry count
      right (2) but the code width from the two character bytes, which the
      tree framing writes `b` first, and once that width runs the first
      record past the end of the stream the decoder fails. */
  lemma ShippedDecoderMisreads(a: char, b: char, root: HuffmanNode, k: nat)
    requires a != b && IsHuffmanTreeFor(root, [a, b])
    requires (b as int) % 256 + 256 * ((a as int) % 256) > 20 + k
    ensures && (forall c | c in [a, b] :: c in CodeMap(root, []))
            && DecompressAt(CompressedBits([a, b], root) + Zeros(k), 0) == Option.None
  {
    TwoLeafHuffmanTree(a, b, root);
    TwoLeafLayout(a, b, k);
    var s := CompressedBits([a, b], root) + Zeros(k);
    var count, chars := U16Of(2), CharBytes([b, a]);
    var width := ShiftIn16(chars);
    assert U16Value(count) == 2 by {
      U16Exact(2);
    }
    assert U16Value(width) > 20 + k by {
      U16BitsOfShiftIn(chars);
      TwoBytesValue(b, a, width);
    }
    FirstRecordPastEnd(s, count, width);
  }

  /** For "ab" the width read is 0x6162, 24930. */
  lemma ShippedDecoderRejects(root: HuffmanNode)
    requires IsHuffmanTreeFor(root, "ab")
    ensures && (forall c | c in "ab" :: c in CodeMap(root, []))
            && DecompressAt(CompressedBits("ab", root) + Zeros(11), 0) == Option.None
  {
    ShippedDecoderMisreads('a', 'b', root, 11);
  }

  // ---------------------------------------------------------------------------
  // The whole pipeline: a fresh writer, `compress`, a reader made from the
  // writer, and the decoder of the framing `compress` writes.

  /** What the matched decoder makes of the stream a reader sees after
      `compress` wrote into a fresh writer: nothing at all for empty text, the
      compressed bits and the zeros that fill the last word otherwise. */
  lemma PipelineOutcome(input: seq<char>, root: HuffmanNode, s: seq<bool>, k: nat)
    requires input == [] ==> s == []
    requires input != [] ==>
               && IsHuffmanTreeFor(root, input) && (forall c | c in input :: c in CodeMap(root, []))
               && s == CompressedBits(input, root) + Zeros(k)
    ensures IsAscii(input) && |input| < 65536 ==>
              TreeStructDecompressAt(s, 0) == if |Distinct(input)| >= 2 then Some(input) else Option.None
    ensures !IsAscii(input) && Utf8Len(input) < 65536 && |Distinct(input)| < 8192 ==>
              TreeStructDecompressAt(s, 0) != Some(input)
  {
    if input != [] {
      HuffmanTreeIsTreeOver(root, input);
      assert input[0] in Distinct(input);
      if IsAscii(input) && |input| < 65536 {
        if |Distinct(input)| >= 2 {
          AsciiRoundTrip(input, root, k);
        } else {
          assert TreeStructDecompressAt(s, 0) == Option.None by {
            SingleSymbolResult(input, root, k);
            Utf8LenAscii(input);
            SmallMod(|input|, 65536);
          }
        }
      } else if !IsAscii(input) && Utf8Len(input) < 65536 && |Distinct(input)| < 8192 {
        NonAsciiNeverRoundTrips(input, root, k);
      }
    }
  }

  /** ASCII text of fewer than 65536 characters with at least two distinct
      characters comes back unchanged; text with a single distinct character
      or no text at all comes back as a failure; other text never comes back
      as itself. */
  method CompressThenDecompress(input: seq<char>) returns (r: Option<seq<char>>)
    ensures IsAscii(input) && |input| < 65536 ==>
              r == if |Distinct(input)| >= 2 then Some(input) else Option.None
    ensures !IsAscii(input) && Utf8Len(input) < 65536 && |Distinct(input)| < 8192 ==>
              r != Some(input)
  {
    var writer := new BitWriter();
    ghost var root := Compress.Compress(input, writer);
    var reader := writer.ToReader();
    ghost var s := reader.StreamBits();
    ghost var k := 64 * |writer.buffer| - writer.bitPosition;
    if input == [] {
      assert reader.buffer == [];
    } else {
      EmptyConcat(CompressedBits(input, root));
    }
    PipelineOutcome(input, root, s, k);
    r := DecompressMatched(reader);
  }
}
