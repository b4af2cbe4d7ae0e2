/** The encoder of src/compress.rs past the tree construction: the two tree
    framings (`tree_struct_encode` and `hash_map_encode`), the character
    count header and the payload of codes, and `compress` driving it all. */
module Compress {
  import opened Bits
  import opened BitStream
  import opened HuffmanTypes
  import opened TreeBuild

  // ---------------------------------------------------------------------------
  // `tree_struct_encode` (compress.rs:132-161).

  /** The tree shape in pre-order: `true` for a branch, `false` for a leaf. */
  function ShapeBits(n: HuffmanNode): seq<bool>
  {
    match n
    case Branch(b) => [true] + ShapeBits(b.t) + ShapeBits(b.f)
    case Value(_) => [false]
    case None => []
  }

  /** A complete tree with `k` leaves has `k - 1` branches: its shape takes
      `2k - 1` bits. */
  lemma {:induction false} ShapeLength(n: HuffmanNode)
    requires IsComplete(n)
    ensures |ShapeBits(n)| == 2 * |Leaves(n)| - 1
  {
    if n.Branch? {
      ShapeLength(n.branch.t);
      ShapeLength(n.branch.f);
      CompleteHasLeaf(n.branch.t);
      CompleteHasLeaf(n.branch.f);
    }
  }

  /** The inner walk of `tree_struct_encode`: it appends the leaf characters
      and the shape bits of `node`, in pre-order. */
  method RecurseShape(node: HuffmanNode, orderedCharacters: seq<char>, treeStructure: seq<bool>)
    returns (characters: seq<char>, structure: seq<bool>)
    requires IsComplete(node)
    ensures characters == orderedCharacters + LeafChars(node)
    ensures structure == treeStructure + ShapeBits(node)
    decreases node
  {
    match node {
      case Branch(branch) =>
        var afterT, structureT := RecurseShape(branch.t, orderedCharacters, treeStructure + [true]);
        characters, structure := RecurseShape(branch.f, afterT, structureT);
        Associative3(orderedCharacters, LeafChars(branch.t), LeafChars(branch.f));
        Associative(treeStructure, [true], ShapeBits(branch.t), ShapeBits(branch.f));
      case Value(value) =>
        characters, structure := orderedCharacters + [value.ch], treeStructure + [false];
    }
  }

  /** Each character as one byte (`as u8`), eight bits apiece. */
  function CharBytes(chars: seq<char>): (r: seq<bool>)
    ensures |r| == 8 * |chars|
  {
    if chars == [] then [] else CharBytes(chars[..|chars| - 1]) + U8Bits(ByteOf(chars[|chars| - 1]))
  }

  lemma {:induction false} CharBytesConcat(a: seq<char>, b: seq<char>)
    ensures CharBytes(a + b) == CharBytes(a) + CharBytes(b)
    decreases |b|
  {
    if b == [] {
      assert a + b == a;
    } else {
      var init, last := b[..|b| - 1], b[|b| - 1];
      assert (a + b)[..|a + b| - 1] == a + init;
      assert (a + b)[|a + b| - 1] == last;
      assert CharBytes(a + b) == CharBytes(a + init) + U8Bits(ByteOf(last));
      CharBytesConcat(a, init);
      Associative3(CharBytes(a), CharBytes(init), U8Bits(ByteOf(last)));
    }
  }

  /** The tree framing: the leaf count as a `u16` (cut to 16 bits), the leaf
      characters one byte each, then the shape. */
  function TreeStructBits(tree: HuffmanNode): seq<bool>
  {
    U16Bits(U16Of(|Leaves(tree)|)) + CharBytes(LeafChars(tree)) + ShapeBits(tree)
  }

  /** The loop over the ordered characters, one `write_u8(character as u8)` each. */
  method WriteCharacters(outputStream: BitWriter, orderedCharacters: seq<char>)
    requires outputStream.Valid()
    modifies outputStream
    ensures outputStream.Valid()
    ensures outputStream.Contents() == old(outputStream.Contents()) + CharBytes(orderedCharacters)
  {
    ghost var header := outputStream.Contents();
    for i := 0 to |orderedCharacters|
      invariant outputStream.Valid()
      invariant outputStream.Contents() == header + CharBytes(orderedCharacters[..i])
    {
      ghost var done := CharBytes(orderedCharacters[..i]);
      outputStream.WriteU8(ByteOf(orderedCharacters[i]));
      assert orderedCharacters[..i + 1][..i] == orderedCharacters[..i];
      assert CharBytes(orderedCharacters[..i + 1]) == done + U8Bits(ByteOf(orderedCharacters[i]));
      Associative3(header, done, U8Bits(ByteOf(orderedCharacters[i])));
    }
    assert orderedCharacters[..|orderedCharacters|] == orderedCharacters;
  }

  method TreeStructEncode(outputStream: BitWriter, tree: HuffmanNode)
    requires outputStream.Valid() && IsComplete(tree)
    modifies outputStream
    ensures outputStream.Valid()
    ensures outputStream.Contents() == old(outputStream.Contents()) + TreeStructBits(tree)
  {
    ghost var start := outputStream.Contents();
    var orderedCharacters, treeStructure := RecurseShape(tree, [], []);
    assert orderedCharacters == LeafChars(tree) by { assert [] + LeafChars(tree) == LeafChars(tree); }
    assert treeStructure == ShapeBits(tree) by { assert [] + ShapeBits(tree) == ShapeBits(tree); }
    ghost var count := U16Bits(U16Of(|orderedCharacters|));
    ghost var characters := CharBytes(orderedCharacters);
    outputStream.WriteU16(U16Of(|orderedCharacters|));
    ghost var afterCount := outputStream.Contents();
    WriteCharacters(outputStream, orderedCharacters);
    ghost var afterCharacters := outputStream.Contents();
    outputStream.WriteBitsVec(treeStructure);
    assert TreeStructBits(tree) == count + characters + treeStructure;
    Associative(start, count, characters, treeStructure);
  }

  // ---------------------------------------------------------------------------
  // `hash_map_encode` (compress.rs:162-189). The map is walked in the order the
  // `HashMap` yields its keys; `order` stands for that order.

  /** `order` lists every key of `cache` exactly once. */
  predicate IsEnumeration(order: seq<char>, cache: map<char, seq<bool>>)
  {
    NoDuplicates(order) && forall c :: c in order <==> c in cache
  }

  /** One record: the code left-padded with `false` to `highestDepth` bits, a
      `true` terminator before it, and the character as one byte. */
  function Record(c: char, code: seq<bool>, highestDepth: nat): (r: seq<bool>)
    requires |code| <= highestDepth
    ensures |r| == highestDepth + 9
  {
    Zeros(highestDepth - |code|) + [true] + code + U8Bits(ByteOf(c))
  }

  predicate CodesFit(cache: map<char, seq<bool>>, highestDepth: nat)
  {
    forall c | c in cache :: |cache[c]| <= highestDepth
  }

  function Records(cache: map<char, seq<bool>>, order: seq<char>, highestDepth: nat): (r: seq<bool>)
    requires CodesFit(cache, highestDepth)
    requires forall c | c in order :: c in cache
  {
    if order == [] then [] else Record(order[0], cache[order[0]], highestDepth) + Records(cache, order[1..], highestDepth)
  }

  lemma {:induction false} RecordsSnoc(cache: map<char, seq<bool>>, order: seq<char>, c: char, highestDepth: nat)
    requires CodesFit(cache, highestDepth)
    requires forall d | d in order + [c] :: d in cache
    ensures Records(cache, order + [c], highestDepth)
            == Records(cache, order, highestDepth) + Record(c, cache[c], highestDepth)
  {
    if order == [] {
      assert [c][1..] == [];
    } else {
      assert (order + [c])[1..] == order[1..] + [c];
      RecordsSnoc(cache, order[1..], c, highestDepth);
      Associative3(Record(order[0], cache[order[0]], highestDepth), Records(cache, order[1..], highestDepth),
                   Record(c, cache[c], highestDepth));
    }
  }

  /** The map framing: the number of entries and the code width as `u16`s (cut
      to 16 bits), then one record per entry in `order`. */
  function HashMapBits(cache: map<char, seq<bool>>, highestDepth: nat, order: seq<char>): seq<bool>
    requires CodesFit(cache, highestDepth)
    requires forall c | c in order :: c in cache
  {
    U16Bits(U16Of(|cache|)) + U16Bits(U16Of(highestDepth)) + Records(cache, order, highestDepth)
  }

  /** The body of the loop over the map: padding, terminator, code, character. */
  method WriteRecord(outputStream: BitWriter, c: char, vecBool: seq<bool>, highestDepth: nat)
    requires outputStream.Valid() && |vecBool| <= highestDepth
    modifies outputStream
    ensures outputStream.Valid()
    ensures outputStream.Contents() == old(outputStream.Contents()) + Record(c, vecBool, highestDepth)
  {
    ghost var before := outputStream.Contents();
    for k := 0 to highestDepth - |vecBool|
      invariant outputStream.Valid()
      invariant outputStream.Contents() == before + Zeros(k)
    {
      outputStream.WriteBit(false);
      assert Zeros(k + 1) == Zeros(k) + [false];
    }
    ghost var padding := Zeros(highestDepth - |vecBool|);
    outputStream.WriteBit(true);
    outputStream.WriteBitsVec(vecBool);
    outputStream.WriteU8(ByteOf(c));
    Associative(before, padding, [true], vecBool);
    Associative(before, padding + [true], vecBool, U8Bits(ByteOf(c)));
  }

  /** The loop over the map entries, one record each. */
  method WriteRecords(outputStream: BitWriter, cacheEncode: map<char, seq<bool>>, highestDepth: nat, order: seq<char>)
    requires outputStream.Valid()
    requires (forall c | c in order :: c in cacheEncode) && CodesFit(cacheEncode, highestDepth)
    modifies outputStream
    ensures outputStream.Valid()
    ensures outputStream.Contents() == old(outputStream.Contents()) + Records(cacheEncode, order, highestDepth)
  {
    ghost var header := outputStream.Contents();
    for i := 0 to |order|
      invariant outputStream.Valid()
      invariant outputStream.Contents() == header + Records(cacheEncode, order[..i], highestDepth)
    {
      var c := order[i];
      ghost var done := Records(cacheEncode, order[..i], highestDepth);
      WriteRecord(outputStream, c, cacheEncode[c], highestDepth);
      assert order[..i + 1] == order[..i] + [c];
      RecordsSnoc(cacheEncode, order[..i], c, highestDepth);
      Associative3(header, done, Record(c, cacheEncode[c], highestDepth));
    }
    assert order[..|order|] == order;
  }

  method HashMapEncode(outputStream: BitWriter, cacheEncode: map<char, seq<bool>>, highestDepth: nat, order: seq<char>)
    requires outputStream.Valid()
    requires IsEnumeration(order, cacheEncode) && CodesFit(cacheEncode, highestDepth)
    modifies outputStream
    ensures outputStream.Valid()
    ensures outputStream.Contents() == old(outputStream.Contents()) + HashMapBits(cacheEncode, highestDepth, order)
  {
    ghost var start := outputStream.Contents();
    ghost var countBits, depthBits := U16Bits(U16Of(|cacheEncode|)), U16Bits(U16Of(highestDepth));
    outputStream.WriteU16(U16Of(|cacheEncode|));
    ghost var afterCount := outputStream.Contents();
    outputStream.WriteU16(U16Of(highestDepth));
    ghost var header := outputStream.Contents();
    assert afterCount == start + countBits;
    WriteRecords(outputStream, cacheEncode, highestDepth, order);
    Associative(start, countBits, depthBits, Records(cacheEncode, order, highestDepth));
  }

  // ---------------------------------------------------------------------------
  // The payload and `compress` itself (compress.rs:5-129).

  /** The codes of the characters of `input`, one after another. */
  function PayloadBits(input: seq<char>, cache: map<char, seq<bool>>): seq<bool>
    requires forall c | c in input :: c in cache
  {
    if input == [] then [] else cache[input[0]] + PayloadBits(input[1..], cache)
  }

  lemma {:induction false} PayloadSnoc(input: seq<char>, c: char, cache: map<char, seq<bool>>)
    requires forall d | d in input + [c] :: d in cache
    ensures PayloadBits(input + [c], cache) == PayloadBits(input, cache) + cache[c]
  {
    if input == [] {
      assert [c][1..] == [];
    } else {
      assert (input + [c])[1..] == input[1..] + [c];
      PayloadSnoc(input[1..], c, cache);
    }
  }

  /** The length of the UTF-8 encoding of `s`, which `str::len` returns. */
  function Utf8Len(s: seq<char>): (n: nat)
    ensures |s| <= n <= 4 * |s|
  {
    if s == [] then 0
    else
      var c := s[0] as int;
      (if c < 0x80 then 1 else if c < 0x800 then 2 else if c < 0x10000 then 3 else 4) + Utf8Len(s[1..])
  }

  /** Only ASCII text has as many UTF-8 bytes as characters. */
  lemma {:induction false} Utf8LenAscii(s: seq<char>)
    ensures Utf8Len(s) == |s| <==> IsAscii(s)
  {
    if s != [] {
      Utf8LenAscii(s[1..]);
      assert IsAscii(s) <==> s[0] as int < 128 && IsAscii(s[1..]) by {
        assert forall i | 1 <= i < |s| :: s[i] == s[1..][i - 1];
      }
    }
  }

  /** Everything `compress` writes for a non-empty `input` whose tree is
      `root`: the tree framing, the length header (the UTF-8 byte count cut
      to 16 bits) and the payload. */
  function CompressedBits(input: seq<char>, root: HuffmanNode): seq<bool>
    requires forall c | c in input :: c in CodeMap(root, [])
  {
    TreeStructBits(root) + U16Bits(U16Of(Utf8Len(input))) + PayloadBits(input, CodeMap(root, []))
  }

  /** No code is longer than the deepest leaf, the width the map framing pads to. */
  lemma CodesFitHeight(root: HuffmanNode)
    ensures CodesFit(CodeMap(root, []), Height(root))
  {
    forall c | c in CodeMap(root, []) ensures |CodeMap(root, [])[c]| <= Height(root) {
      CodeMapPath(root, [], c);
    }
  }

  /** What `compress` writes on the other arm of its dispatch, the map
      framing with the codes listed in `order`, then the same length header
      and payload. */
  function HashMapCompressedBits(input: seq<char>, root: HuffmanNode, order: seq<char>): seq<bool>
    requires forall c | c in input :: c in CodeMap(root, [])
    requires IsEnumeration(order, CodeMap(root, []))
  {
    CodesFitHeight(root);
    HashMapBits(CodeMap(root, []), Height(root), order) + U16Bits(U16Of(Utf8Len(input)))
    + PayloadBits(input, CodeMap(root, []))
  }

  /** The loop over the input writing each character's code. */
  method WritePayload(outputStream: BitWriter, input: seq<char>, cacheEncode: map<char, seq<bool>>)
    requires outputStream.Valid()
    requires forall c | c in input :: c in cacheEncode
    modifies outputStream
    ensures outputStream.Valid()
    ensures outputStream.Contents() == old(outputStream.Contents()) + PayloadBits(input, cacheEncode)
  {
    ghost var header := outputStream.Contents();
    for i := 0 to |input|
      invariant outputStream.Valid()
      invariant outputStream.Contents() == header + PayloadBits(input[..i], cacheEncode)
    {
      var encodedChar := cacheEncode[input[i]];
      outputStream.WriteBitsVec(encodedChar);
      assert input[..i + 1] == input[..i] + [input[i]];
      PayloadSnoc(input[..i], input[i], cacheEncode);
    }
    assert input[..|input|] == input;
  }

  /** `compress`: nothing is written for empty input; otherwise the tree built
      for `input` is walked for its codes and written in the tree framing,
      followed by the length header and the payload. */
  method Compress(input: seq<char>, outputStream: BitWriter) returns (ghost root: HuffmanNode)
    requires outputStream.Valid()
    modifies outputStream
    ensures outputStream.Valid()
    ensures input == [] ==> outputStream.Contents() == old(outputStream.Contents())
    ensures input != [] ==>
              && IsHuffmanTreeFor(root, input)
              && (forall c | c in input :: c in CodeMap(root, []))
              && outputStream.Contents() == old(outputStream.Contents()) + CompressedBits(input, root)
  {
    if input == [] {
      return None;
    }
    var masterNode := HuffmanTree(input);
    root := masterNode;
    HuffmanTreeIsTreeOver(root, input);
    WellFormedIsComplete(root);
    var cacheEncode, highestDepth := RecurseNode(masterNode, map[], [], 0, 0);
    assert cacheEncode == CodeMap(root, []);
    HuffmanTreeLeaves(root, input);
    CodeMapKeys(root, []);

    ghost var start := outputStream.Contents();
    ghost var framing := TreeStructBits(root);
    ghost var lengthHeader := U16Bits(U16Of(Utf8Len(input)));
    ghost var payload := PayloadBits(input, cacheEncode);
    TreeStructEncode(outputStream, masterNode);
    ghost var afterFraming := outputStream.Contents();
    outputStream.WriteU16(U16Of(Utf8Len(input)));
    ghost var afterHeader := outputStream.Contents();
    WritePayload(outputStream, input, cacheEncode);
    Associative(start, framing, lengthHeader, payload);
    assert outputStream.Contents() == start + CompressedBits(input, root);
  }
}
