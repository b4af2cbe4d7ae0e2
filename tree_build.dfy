/** Building the code tree, lines 7-102 of src/compress.rs: counting character
    frequencies into a vector of leaves, sorting it by descending count, merging
    the two lightest nodes until one root remains, and walking the root to give
    every character its code. */
module TreeBuild {
  import opened HuffmanTypes

  predicate NoDuplicates<T(==)>(s: seq<T>)
  {
    forall i, j | 0 <= i < j < |s| :: s[i] != s[j]
  }

  // ---------------------------------------------------------------------------
  // Counting (compress.rs:10-32).

  /** The distinct characters of `s`, each where it first appears. */
  function Distinct(s: seq<char>): (d: seq<char>)
    ensures NoDuplicates(d)
    ensures forall c :: c in d <==> c in s
  {
    if s == [] then []
    else
      var d := Distinct(s[..|s| - 1]);
      assert s == s[..|s| - 1] + [s[|s| - 1]];
      if s[|s| - 1] in d then d else d + [s[|s| - 1]]
  }

  /** One leaf per distinct character, in order of first appearance, counting
      that character's occurrences. */
  function FrequencyValues(s: seq<char>): (r: seq<HuffmanValue>)
    ensures |r| == |Distinct(s)|
  {
    seq(|Distinct(s)|, k requires 0 <= k < |Distinct(s)| => HuffmanValue(Distinct(s)[k], multiset(s)[Distinct(s)[k]]))
  }

  /** The vector the counting loop builds: `FrequencyValues` as `Value` nodes. */
  function Frequencies(s: seq<char>): (r: seq<HuffmanNode>)
    ensures |r| == |Distinct(s)|
  {
    seq(|Distinct(s)|, k requires 0 <= k < |Distinct(s)| => Value(FrequencyValues(s)[k]))
  }

  /** What one more character does to the counted leaves: the leaf of an
      already-seen character counts one more, a new character gets a new leaf
      with count 1 at the end. */
  lemma FrequencyValuesStep(s: seq<char>, c: char)
    ensures var d, v, v' := Distinct(s), FrequencyValues(s), FrequencyValues(s + [c]);
            if c in d then
              exists j | 0 <= j < |d| && d[j] == c :: v' == v[j := HuffmanValue(c, v[j].count + 1)]
            else v' == v + [HuffmanValue(c, 1)]
  {
    var s' := s + [c];
    assert s'[..|s'| - 1] == s;
    var d, v, v' := Distinct(s), FrequencyValues(s), FrequencyValues(s');
    assert multiset(s') == multiset(s) + multiset{c};
    if c in d {
      assert Distinct(s') == d;
      var j :| 0 <= j < |d| && d[j] == c;
      var u := v[j := HuffmanValue(c, v[j].count + 1)];
      forall k | 0 <= k < |d| ensures v'[k] == u[k] {
        if k != j {
          assert d[k] != c;
        }
      }
      assert v' == u;
    } else {
      assert Distinct(s') == d + [c];
      assert multiset(s)[c] == 0;
      var u := v + [HuffmanValue(c, 1)];
      forall k | 0 <= k < |d| ensures v'[k] == u[k] {
        assert d[k] != c;
      }
      assert v' == u;
    }
  }

  /** One step of the counting loop: after the linear search stops at `j`,
      bumping the count found there, or pushing a new leaf when the search ran
      off the end, gives the counted leaves of one more character. */
  lemma CountStep(nodes: seq<HuffmanNode>, s: seq<char>, c: char, j: nat)
    requires nodes == Frequencies(s) && j <= |nodes|
    requires forall k | 0 <= k < j :: nodes[k].value.ch != c
    requires j < |nodes| ==> nodes[j].value.ch == c
    ensures j < |nodes| ==> Frequencies(s + [c]) == nodes[j := Value(nodes[j].value.(count := nodes[j].value.count + 1))]
    ensures j == |nodes| ==> Frequencies(s + [c]) == nodes + [Value(HuffmanValue(c, 1))]
  {
    if j < |nodes| {
      CountFound(nodes, s, c, j);
    } else {
      CountNew(nodes, s, c);
    }
  }

  lemma CountFound(nodes: seq<HuffmanNode>, s: seq<char>, c: char, j: nat)
    requires nodes == Frequencies(s) && j < |nodes|
    requires nodes[j].value.ch == c
    ensures Frequencies(s + [c]) == nodes[j := Value(nodes[j].value.(count := nodes[j].value.count + 1))]
  {
    FrequencyValuesStep(s, c);
    var d, v, v' := Distinct(s), FrequencyValues(s), FrequencyValues(s + [c]);
    assert nodes[j] == Value(v[j]) && v[j].ch == d[j];
    assert c in d;
    var i :| 0 <= i < |d| && d[i] == c && v' == v[i := HuffmanValue(c, v[i].count + 1)];
    assert i == j;
    var target := nodes[j := Value(nodes[j].value.(count := nodes[j].value.count + 1))];
    var r := Frequencies(s + [c]);
    assert |r| == |v'| == |target|;
    forall k | 0 <= k < |r| ensures r[k] == target[k] {
      assert r[k] == Value(v'[k]);
    }
  }

  lemma CountNew(nodes: seq<HuffmanNode>, s: seq<char>, c: char)
    requires nodes == Frequencies(s)
    requires forall k | 0 <= k < |nodes| :: nodes[k].value.ch != c
    ensures Frequencies(s + [c]) == nodes + [Value(HuffmanValue(c, 1))]
  {
    FrequencyValuesStep(s, c);
    var d, v, v' := Distinct(s), FrequencyValues(s), FrequencyValues(s + [c]);
    assert c !in d by {
      forall k | 0 <= k < |d| ensures d[k] != c {
        assert nodes[k] == Value(v[k]) && v[k].ch == d[k];
      }
    }
    assert v' == v + [HuffmanValue(c, 1)];
    var target := nodes + [Value(HuffmanValue(c, 1))];
    var r := Frequencies(s + [c]);
    assert |r| == |v'| == |target|;
    forall k | 0 <= k < |r| ensures r[k] == target[k] {
      assert r[k] == Value(v'[k]);
    }
  }

  /** The counting loop: for every input character, a linear search for its
      leaf; found, the count goes up by one, otherwise a leaf with count 1 is
      pushed. */
  method CountFrequencies(input: seq<char>) returns (huffmanTree: seq<HuffmanNode>)
    ensures huffmanTree == Frequencies(input)
  {
    huffmanTree := [];
    for i := 0 to |input|
      invariant huffmanTree == Frequencies(input[..i])
    {
      var c := input[i];
      var j := 0;
      while j < |huffmanTree| && huffmanTree[j].value.ch != c
        invariant j <= |huffmanTree|
        invariant forall k | 0 <= k < j :: huffmanTree[k].value.ch != c
      {
        j := j + 1;
      }
      CountStep(huffmanTree, input[..i], c, j);
      assert input[..i + 1] == input[..i] + [c];
      if j < |huffmanTree| {
        huffmanTree := huffmanTree[j := Value(huffmanTree[j].value.(count := huffmanTree[j].value.count + 1))];
      } else {
        huffmanTree := huffmanTree + [Value(HuffmanValue(c, 1))];
      }
    }
    assert input[..|input|] == input;
  }

  lemma {:induction false} LeafTotalUpdate(v: seq<HuffmanValue>, j: nat, x: HuffmanValue)
    requires j < |v|
    ensures LeafTotal(v[j := x]) + v[j].count == LeafTotal(v) + x.count
  {
    assert v == v[..j] + [v[j]] + v[j + 1..];
    assert v[j := x] == v[..j] + [x] + v[j + 1..];
    LeafTotalConcat(v[..j] + [v[j]], v[j + 1..]);
    LeafTotalConcat(v[..j], [v[j]]);
    LeafTotalConcat(v[..j] + [x], v[j + 1..]);
    LeafTotalConcat(v[..j], [x]);
  }

  /** The counts add up to the number of characters. */
  lemma {:induction false} FrequencyValuesTotal(s: seq<char>)
    ensures LeafTotal(FrequencyValues(s)) == |s|
  {
    if s != [] {
      var init, c := s[..|s| - 1], s[|s| - 1];
      assert s == init + [c];
      FrequencyValuesTotal(init);
      FrequencyValuesStep(init, c);
      var v := FrequencyValues(init);
      if c in Distinct(init) {
        var j :| 0 <= j < |Distinct(init)| && Distinct(init)[j] == c
                 && FrequencyValues(s) == v[j := HuffmanValue(c, v[j].count + 1)];
        LeafTotalUpdate(v, j, HuffmanValue(c, v[j].count + 1));
      } else {
        LeafTotalConcat(v, [HuffmanValue(c, 1)]);
      }
    }
  }

  // ---------------------------------------------------------------------------
  // Sorting by descending count (compress.rs:35-42). `sort_by` is a stable sort
  // from the standard library; it is modelled by a stable insertion sort.

  predicate SortedByCount(nodes: seq<HuffmanNode>)
  {
    forall j, k | 0 <= j < k < |nodes| :: nodes[j].CountSubBranches() >= nodes[k].CountSubBranches()
  }

  /** The nodes of weight `w`, in their order. */
  function WithCount(nodes: seq<HuffmanNode>, w: nat): seq<HuffmanNode>
  {
    if nodes == [] then []
    else (if nodes[0].CountSubBranches() == w then [nodes[0]] else []) + WithCount(nodes[1..], w)
  }

  lemma {:induction false} WithCountConcat(a: seq<HuffmanNode>, b: seq<HuffmanNode>, w: nat)
    ensures WithCount(a + b, w) == WithCount(a, w) + WithCount(b, w)
  {
    if a == [] {
      assert a + b == b;
    } else {
      var head: seq<HuffmanNode> := if a[0].CountSubBranches() == w then [a[0]] else [];
      assert (a + b)[0] == a[0];
      assert (a + b)[1..] == a[1..] + b;
      WithCountConcat(a[1..], b, w);
      calc {
        WithCount(a + b, w);
        head + WithCount(a[1..] + b, w);
        head + (WithCount(a[1..], w) + WithCount(b, w));
        (head + WithCount(a[1..], w)) + WithCount(b, w);
      }
    }
  }

  lemma {:induction false} WithCountAbsent(nodes: seq<HuffmanNode>, w: nat)
    requires forall k | 0 <= k < |nodes| :: nodes[k].CountSubBranches() < w
    ensures WithCount(nodes, w) == []
  {
    if nodes != [] {
      WithCountAbsent(nodes[1..], w);
    }
  }

  /** Inserts `x` after every node at least as heavy. */
  function InsertByCount(x: HuffmanNode, sorted: seq<HuffmanNode>): (r: seq<HuffmanNode>)
    ensures |r| == |sorted| + 1
  {
    if sorted == [] then [x]
    else if sorted[0].CountSubBranches() >= x.CountSubBranches() then [sorted[0]] + InsertByCount(x, sorted[1..])
    else [x] + sorted
  }

  /** Inserting into a sorted vector keeps it sorted. */
  lemma {:induction false} InsertByCountSorted(x: HuffmanNode, sorted: seq<HuffmanNode>)
    requires SortedByCount(sorted)
    ensures SortedByCount(InsertByCount(x, sorted))
    ensures InsertByCount(x, sorted)[0] == x || (sorted != [] && InsertByCount(x, sorted)[0] == sorted[0])
  {
    var r := InsertByCount(x, sorted);
    if sorted != [] && sorted[0].CountSubBranches() >= x.CountSubBranches() {
      var tail := InsertByCount(x, sorted[1..]);
      InsertByCountSorted(x, sorted[1..]);
      assert r == [sorted[0]] + tail;
      assert tail[0].CountSubBranches() <= sorted[0].CountSubBranches();
      forall j, k | 0 <= j < k < |r| ensures r[j].CountSubBranches() >= r[k].CountSubBranches() {
        assert r[k] == tail[k - 1];
        if j > 0 {
          assert r[j] == tail[j - 1];
        } else if k > 1 {
          assert tail[0].CountSubBranches() >= tail[k - 1].CountSubBranches();
        }
      }
    } else if sorted != [] {
      assert r == [x] + sorted;
      forall j, k | 0 <= j < k < |r| ensures r[j].CountSubBranches() >= r[k].CountSubBranches() {
        assert r[k] == sorted[k - 1];
        if j > 0 {
          assert r[j] == sorted[j - 1];
        } else if k > 1 {
          assert sorted[0].CountSubBranches() >= sorted[k - 1].CountSubBranches();
        }
      }
    }
  }

  /** Inserting adds `x` and loses nothing. */
  lemma {:induction false} InsertByCountPermutes(x: HuffmanNode, sorted: seq<HuffmanNode>)
    ensures multiset(InsertByCount(x, sorted)) == multiset(sorted) + multiset{x}
  {
    if sorted != [] && sorted[0].CountSubBranches() >= x.CountSubBranches() {
      InsertByCountPermutes(x, sorted[1..]);
      assert sorted == [sorted[0]] + sorted[1..];
    }
  }

  /** Among nodes of its own weight, `x` goes last; the nodes of every other
      weight keep their order. */
  lemma {:induction false} InsertByCountStable(x: HuffmanNode, sorted: seq<HuffmanNode>, w: nat)
    requires SortedByCount(sorted)
    ensures WithCount(InsertByCount(x, sorted), w)
            == WithCount(sorted, w) + (if x.CountSubBranches() == w then [x] else [])
  {
    var here: seq<HuffmanNode> := if x.CountSubBranches() == w then [x] else [];
    if sorted == [] {
      assert WithCount([x], w) == here + WithCount([], w);
    } else if sorted[0].CountSubBranches() >= x.CountSubBranches() {
      InsertByCountStable(x, sorted[1..], w);
      StableCons(sorted[0], sorted[1..], InsertByCount(x, sorted[1..]), here, w);
      assert sorted == [sorted[0]] + sorted[1..];
    } else {
      if x.CountSubBranches() == w {
        WithCountAbsent(sorted, w);
      }
      assert ([x] + sorted)[1..] == sorted;
    }
  }

  lemma StableCons(y: HuffmanNode, rest: seq<HuffmanNode>, tail: seq<HuffmanNode>, here: seq<HuffmanNode>, w: nat)
    requires WithCount(tail, w) == WithCount(rest, w) + here
    ensures WithCount([y] + tail, w) == WithCount([y] + rest, w) + here
  {
    assert ([y] + tail)[1..] == tail;
    assert ([y] + rest)[1..] == rest;
  }

  /** `sort_by(|a, b| b.count.cmp(&a.count))`, as an insertion sort. */
  function SortByCount(nodes: seq<HuffmanNode>): (r: seq<HuffmanNode>)
    ensures |r| == |nodes|
  {
    if nodes == [] then [] else InsertByCount(nodes[|nodes| - 1], SortByCount(nodes[..|nodes| - 1]))
  }

  /** The sort orders by descending count. */
  lemma {:induction false} SortByCountSorted(nodes: seq<HuffmanNode>)
    ensures SortedByCount(SortByCount(nodes))
  {
    if nodes != [] {
      SortByCountSorted(nodes[..|nodes| - 1]);
      InsertByCountSorted(nodes[|nodes| - 1], SortByCount(nodes[..|nodes| - 1]));
    }
  }

  /** The sort is a permutation. */
  lemma {:induction false} SortByCountPermutes(nodes: seq<HuffmanNode>)
    ensures multiset(SortByCount(nodes)) == multiset(nodes)
  {
    if nodes != [] {
      var init, x := nodes[..|nodes| - 1], nodes[|nodes| - 1];
      SortByCountPermutes(init);
      InsertByCountPermutes(x, SortByCount(init));
      assert nodes == init + [x];
    }
  }

  /** The sort is stable: the nodes of each weight keep their relative order. */
  lemma {:induction false} SortByCountStable(nodes: seq<HuffmanNode>, w: nat)
    ensures WithCount(SortByCount(nodes), w) == WithCount(nodes, w)
  {
    if nodes != [] {
      var init, x := nodes[..|nodes| - 1], nodes[|nodes| - 1];
      assert nodes == init + [x];
      SortByCountStable(init, w);
      SortByCountSorted(init);
      InsertByCountStable(x, SortByCount(init), w);
      WithCountConcat(init, [x], w);
      assert [x][1..] == [];
    }
  }

  // ---------------------------------------------------------------------------
  // The merge loop (compress.rs:45-71).

  /** A place for a node of weight `count` in `nodes` that keeps the vector
      sorted by descending weight: every node before it weighs at least
      `count`, every node from it on at most `count`. */
  predicate InOrderAt(nodes: seq<HuffmanNode>, count: nat, pos: nat)
  {
    && pos <= |nodes|
    && (forall k | 0 <= k < pos :: nodes[k].CountSubBranches() >= count)
    && (forall k | pos <= k < |nodes| :: nodes[k].CountSubBranches() <= count)
  }

  /** The position `binary_search_by(|c| count.cmp(&c.count_sub_branches()))`
      returns on a vector sorted by descending weight, `Ok` and `Err` alike:
      every node before it weighs at least `count`, every node from it on at
      most `count`. The loop is the standard library's search: halve the
      window, keep the upper half unless the middle node is lighter. */
  method InsertPosition(huffmanTree: seq<HuffmanNode>, count: nat) returns (pos: nat)
    requires SortedByCount(huffmanTree)
    ensures InOrderAt(huffmanTree, count, pos)
  {
    var size := |huffmanTree|;
    if size == 0 {
      return 0;
    }
    var base := 0;
    while size > 1
      invariant 1 <= size && base + size <= |huffmanTree|
      invariant forall k | 0 <= k < base :: huffmanTree[k].CountSubBranches() >= count
      invariant forall k | base + size <= k < |huffmanTree| :: huffmanTree[k].CountSubBranches() < count
    {
      var half := size / 2;
      var mid := base + half;
      // the comparison is Greater exactly when the middle node is lighter
      if !(count > huffmanTree[mid].CountSubBranches()) {
        base := mid;
      }
      size := size - half;
    }
    var weight := huffmanTree[base].CountSubBranches();
    if count == weight {
      pos := base;
    } else {
      pos := base + (if count < weight then 1 else 0);
    }
  }

  /** The parent the loop builds over its two pops: `t` is the lightest node
      (popped first), `f` the next. */
  function Parent(first: HuffmanNode, second: HuffmanNode): HuffmanNode
  {
    Branch(HuffmanBranch(first, second, first.CountSubBranches() + second.CountSubBranches()))
  }

  /** One iteration of the merge loop: pop the two lightest nodes, and insert
      their parent where the vector stays sorted by descending weight. */
  method MergeLightest(huffmanTree: seq<HuffmanNode>) returns (merged: seq<HuffmanNode>, insertPos: nat)
    requires |huffmanTree| > 1 && SortedByCount(huffmanTree)
    ensures var n := |huffmanTree|;
            insertPos <= n - 2 &&
            merged == huffmanTree[..insertPos] + [Parent(huffmanTree[n - 1], huffmanTree[n - 2])]
                      + huffmanTree[insertPos..n - 2]
    ensures var n := |huffmanTree|;
            InOrderAt(huffmanTree[..n - 2], Parent(huffmanTree[n - 1], huffmanTree[n - 2]).CountSubBranches(), insertPos)
    ensures |merged| == |huffmanTree| - 1
    ensures SortedByCount(merged)
  {
    var rest := huffmanTree;
    var first := rest[|rest| - 1];
    rest := rest[..|rest| - 1];
    var second := rest[|rest| - 1];
    rest := rest[..|rest| - 1];
    var count := first.CountSubBranches() + second.CountSubBranches();
    var newNode := Branch(HuffmanBranch(first, second, count));
    insertPos := InsertPosition(rest, count);
    merged := rest[..insertPos] + [newNode] + rest[insertPos..];
    assert rest == huffmanTree[..|huffmanTree| - 2];
    assert forall k | 0 <= k < |merged| ::
             merged[k] == if k < insertPos then rest[k] else if k == insertPos then newNode else rest[k - 1];
  }

  /** All leaves of a vector of trees, tree by tree. */
  function ForestLeaves(nodes: seq<HuffmanNode>): seq<HuffmanValue>
  {
    if nodes == [] then [] else ForestLeaves(nodes[..|nodes| - 1]) + Leaves(nodes[|nodes| - 1])
  }

  lemma {:induction false} ForestLeavesConcat(a: seq<HuffmanNode>, b: seq<HuffmanNode>)
    ensures ForestLeaves(a + b) == ForestLeaves(a) + ForestLeaves(b)
    decreases |b|
  {
    if b == [] {
      assert a + b == a;
    } else {
      var b', y := b[..|b| - 1], b[|b| - 1];
      assert (a + b)[..|a + b| - 1] == a + b';
      ForestLeavesConcat(a, b');
    }
  }

  /** The merge loop only regroups leaves: the leaves of the vector, counted
      with multiplicity, are the same before and after one iteration. */
  lemma MergeKeepsLeaves(huffmanTree: seq<HuffmanNode>, merged: seq<HuffmanNode>, insertPos: nat)
    requires |huffmanTree| > 1
    requires var n := |huffmanTree|;
             insertPos <= n - 2 &&
             merged == huffmanTree[..insertPos] + [Parent(huffmanTree[n - 1], huffmanTree[n - 2])]
                       + huffmanTree[insertPos..n - 2]
    ensures multiset(ForestLeaves(merged)) == multiset(ForestLeaves(huffmanTree))
  {
    var n := |huffmanTree|;
    var rest, first, second := huffmanTree[..n - 2], huffmanTree[n - 1], huffmanTree[n - 2];
    var parent := Parent(first, second);
    assert huffmanTree == rest + [second] + [first];
    ForestLeavesConcat(rest + [second], [first]);
    ForestLeavesConcat(rest, [second]);
    assert ForestLeaves([first]) == Leaves(first) by { assert [first][..0] == []; }
    assert ForestLeaves([second]) == Leaves(second) by { assert [second][..0] == []; }
    assert rest == rest[..insertPos] + rest[insertPos..];
    assert huffmanTree[..insertPos] == rest[..insertPos];
    assert huffmanTree[insertPos..n - 2] == rest[insertPos..];
    ForestLeavesConcat(rest[..insertPos] + [parent], rest[insertPos..]);
    ForestLeavesConcat(rest[..insertPos], [parent]);
    ForestLeavesConcat(rest[..insertPos], rest[insertPos..]);
    assert ForestLeaves([parent]) == Leaves(parent) by { assert [parent][..0] == []; }
  }

  lemma MergeKeepsWellFormed(huffmanTree: seq<HuffmanNode>, merged: seq<HuffmanNode>, insertPos: nat)
    requires |huffmanTree| > 1
    requires forall k | 0 <= k < |huffmanTree| :: WellFormed(huffmanTree[k])
    requires var n := |huffmanTree|;
             insertPos <= n - 2 &&
             merged == huffmanTree[..insertPos] + [Parent(huffmanTree[n - 1], huffmanTree[n - 2])]
                       + huffmanTree[insertPos..n - 2]
    ensures forall k | 0 <= k < |merged| :: WellFormed(merged[k])
  {
    var n := |huffmanTree|;
    assert WellFormed(Parent(huffmanTree[n - 1], huffmanTree[n - 2]));
    forall k | 0 <= k < |merged| ensures WellFormed(merged[k]) {
      if k < insertPos {
        assert merged[k] == huffmanTree[k];
      } else if k > insertPos {
        assert merged[k] == huffmanTree[k - 1];
      }
    }
  }

  /** The vector after one iteration of the merge loop that inserts the parent
      of the last two nodes at `pos`. */
  function Merged(forest: seq<HuffmanNode>, pos: nat): seq<HuffmanNode>
    requires |forest| > 1 && pos <= |forest| - 2
  {
    var n := |forest|;
    forest[..pos] + [Parent(forest[n - 1], forest[n - 2])] + forest[pos..n - 2]
  }

  /** `result` is what the merge loop reaches from `forest` when its
      successive insertions land at `positions`, each one a place that keeps
      the vector in order, as `InsertPosition` promises. */
  ghost predicate MergeSteps(forest: seq<HuffmanNode>, positions: seq<nat>, result: seq<HuffmanNode>)
    decreases |positions|
  {
    if positions == [] then result == forest
    else
      var n := |forest|;
      && n > 1 && positions[0] <= n - 2
      && InOrderAt(forest[..n - 2], Parent(forest[n - 1], forest[n - 2]).CountSubBranches(), positions[0])
      && MergeSteps(Merged(forest, positions[0]), positions[1..], result)
  }

  /** One more iteration extends the trace by its insertion position. */
  lemma {:induction false} MergeStepsSnoc(forest: seq<HuffmanNode>, positions: seq<nat>, mid: seq<HuffmanNode>, pos: nat)
    requires MergeSteps(forest, positions, mid)
    requires var n := |mid|;
             && n > 1 && pos <= n - 2
             && InOrderAt(mid[..n - 2], Parent(mid[n - 1], mid[n - 2]).CountSubBranches(), pos)
    ensures MergeSteps(forest, positions + [pos], Merged(mid, pos))
    decreases |positions|
  {
    if positions == [] {
      assert positions + [pos] == [pos] && [pos][1..] == [];
    } else {
      assert (positions + [pos])[1..] == positions[1..] + [pos];
      MergeStepsSnoc(Merged(forest, positions[0]), positions[1..], mid, pos);
    }
  }

  /** Merging never loses or gains a leaf and keeps every tree well formed,
      however many iterations run. */
  lemma {:induction false} MergeStepsKeep(forest: seq<HuffmanNode>, positions: seq<nat>, result: seq<HuffmanNode>)
    requires MergeSteps(forest, positions, result)
    requires forall k | 0 <= k < |forest| :: WellFormed(forest[k])
    ensures forall k | 0 <= k < |result| :: WellFormed(result[k])
    ensures multiset(ForestLeaves(result)) == multiset(ForestLeaves(forest))
    decreases |positions|
  {
    if positions != [] {
      var merged := Merged(forest, positions[0]);
      MergeKeepsLeaves(forest, merged, positions[0]);
      MergeKeepsWellFormed(forest, merged, positions[0]);
      MergeStepsKeep(merged, positions[1..], result);
    }
  }

  /** The merge loop: while more than one node is left, merge the two lightest.
      A non-empty vector ends as a single well-formed root holding every leaf
      it started with; an empty one stays empty. Either way the result is one
      the merge steps reach. */
  method BuildTree(sorted: seq<HuffmanNode>) returns (huffmanTree: seq<HuffmanNode>)
    requires SortedByCount(sorted)
    requires forall k | 0 <= k < |sorted| :: WellFormed(sorted[k])
    ensures |huffmanTree| == if sorted == [] then 0 else 1
    ensures forall k | 0 <= k < |huffmanTree| :: WellFormed(huffmanTree[k])
    ensures multiset(ForestLeaves(huffmanTree)) == multiset(ForestLeaves(sorted))
    ensures exists positions :: MergeSteps(sorted, positions, huffmanTree)
  {
    huffmanTree := sorted;
    ghost var positions: seq<nat> := [];
    while |huffmanTree| > 1
      invariant SortedByCount(huffmanTree)
      invariant forall k | 0 <= k < |huffmanTree| :: WellFormed(huffmanTree[k])
      invariant multiset(ForestLeaves(huffmanTree)) == multiset(ForestLeaves(sorted))
      invariant |huffmanTree| == 0 <==> sorted == []
      invariant MergeSteps(sorted, positions, huffmanTree)
      decreases |huffmanTree|
    {
      var merged, insertPos := MergeLightest(huffmanTree);
      MergeKeepsLeaves(huffmanTree, merged, insertPos);
      MergeKeepsWellFormed(huffmanTree, merged, insertPos);
      MergeStepsSnoc(sorted, positions, huffmanTree, insertPos);
      positions := positions + [insertPos];
      huffmanTree := merged;
    }
  }

  // ---------------------------------------------------------------------------
  // What the construction yields (compress.rs:7-75).

  /** Any well-formed tree whose leaves are exactly the counted leaves of
      `input`, with multiplicity, whatever its shape. */
  ghost predicate IsTreeOver(root: HuffmanNode, input: seq<char>)
  {
    WellFormed(root) && multiset(Leaves(root)) == multiset(FrequencyValues(input))
  }

  /** A Huffman tree for `input`: the single node the merge loop leaves when
      it starts from the counted leaves sorted by descending count. Only where
      equal weights tie may the insertion positions differ from the ones the
      standard library's search picks. */
  ghost predicate IsHuffmanTreeFor(root: HuffmanNode, input: seq<char>)
  {
    exists positions :: MergeSteps(SortByCount(Frequencies(input)), positions, [root])
  }

  /** A Huffman tree is a tree over the counted leaves, and only non-empty
      text has one. */
  lemma HuffmanTreeIsTreeOver(root: HuffmanNode, input: seq<char>)
    requires IsHuffmanTreeFor(root, input)
    ensures input != [] && IsTreeOver(root, input)
  {
    var positions :| MergeSteps(SortByCount(Frequencies(input)), positions, [root]);
    if input == [] {
      assert false;
    }
    SortedFrequencies(input);
    MergeStepsKeep(SortByCount(Frequencies(input)), positions, [root]);
    assert ForestLeaves([root]) == Leaves(root) by { assert [root][..0] == []; }
  }

  /** The root the encoder takes, `huffman_tree.get(0)` after the merge loop,
      for a non-empty input. */
  method HuffmanTree(input: seq<char>) returns (root: HuffmanNode)
    requires input != []
    ensures IsHuffmanTreeFor(root, input)
  {
    var counted := CountFrequencies(input);
    var sorted := SortByCount(counted);
    SortedFrequencies(input);
    var huffmanTree := BuildTree(sorted);
    root := huffmanTree[0];
    assert huffmanTree == [root];
  }

  /** What the merge loop is given: the counted leaves of a non-empty input,
      sorted, each well formed, holding the counted leaves. */
  lemma SortedFrequencies(input: seq<char>)
    requires input != []
    ensures var sorted := SortByCount(Frequencies(input));
            && sorted != []
            && SortedByCount(sorted)
            && (forall k | 0 <= k < |sorted| :: WellFormed(sorted[k]))
            && multiset(ForestLeaves(sorted)) == multiset(FrequencyValues(input))
  {
    var counted := Frequencies(input);
    SortByCountSorted(counted);
    SortByCountPermutes(counted);
    SortedFrequenciesWellFormed(input);
    assert Distinct(input) != [] by { assert input[0] in input; }
    ForestLeavesPermutation(counted, SortByCount(counted));
    FrequencyLeaves(input);
  }

  /** Every counted leaf counts at least one occurrence, whatever the order. */
  lemma SortedFrequenciesWellFormed(input: seq<char>)
    ensures forall k | 0 <= k < |SortByCount(Frequencies(input))| :: WellFormed(SortByCount(Frequencies(input))[k])
  {
    var counted := Frequencies(input);
    var sorted := SortByCount(counted);
    SortByCountPermutes(counted);
    forall k | 0 <= k < |sorted| ensures WellFormed(sorted[k]) {
      assert sorted[k] in multiset(counted);
      var i :| 0 <= i < |counted| && counted[i] == sorted[k];
      assert counted[i] == Value(FrequencyValues(input)[i]);
      assert Distinct(input)[i] in input;
      assert multiset(input)[Distinct(input)[i]] >= 1;
    }
  }

  lemma {:induction false} ForestLeavesOfValues(nodes: seq<HuffmanNode>, values: seq<HuffmanValue>)
    requires |nodes| == |values|
    requires forall k | 0 <= k < |nodes| :: nodes[k] == Value(values[k])
    ensures ForestLeaves(nodes) == values
    decreases |nodes|
  {
    if nodes != [] {
      ForestLeavesOfValues(nodes[..|nodes| - 1], values[..|values| - 1]);
      assert values == values[..|values| - 1] + [values[|values| - 1]];
    }
  }

  lemma FrequencyLeaves(s: seq<char>)
    ensures ForestLeaves(Frequencies(s)) == FrequencyValues(s)
  {
    ForestLeavesOfValues(Frequencies(s), FrequencyValues(s));
  }

  /** Reordering the trees of a vector reorders its leaves. */
  lemma {:induction false} ForestLeavesPermutation(a: seq<HuffmanNode>, b: seq<HuffmanNode>)
    requires multiset(a) == multiset(b)
    ensures multiset(ForestLeaves(a)) == multiset(ForestLeaves(b))
    decreases |a|
  {
    if a != [] {
      var init, x := a[..|a| - 1], a[|a| - 1];
      assert a == init + [x];
      assert x in multiset(b);
      var i :| 0 <= i < |b| && b[i] == x;
      var b' := b[..i] + b[i + 1..];
      MultisetRemove(a, b, i);
      assert b == b[..i] + [x] + b[i + 1..];
      ForestLeavesPermutation(init, b');
      ForestLeavesConcat(b[..i] + [x], b[i + 1..]);
      ForestLeavesConcat(b[..i], [x]);
      ForestLeavesConcat(b[..i], b[i + 1..]);
      assert ForestLeaves([x]) == Leaves(x) by { assert [x][..0] == []; }
    }
  }

  /** Taking the last element of `a` and one equal element of `b` out of two
      permutations of each other leaves permutations of each other. */
  lemma MultisetRemove<T>(a: seq<T>, b: seq<T>, i: nat)
    requires a != [] && i < |b| && b[i] == a[|a| - 1] && multiset(a) == multiset(b)
    ensures multiset(a[..|a| - 1]) == multiset(b[..i] + b[i + 1..])
  {
    var x := a[|a| - 1];
    assert a == a[..|a| - 1] + [x];
    assert b == b[..i] + [x] + b[i + 1..];
    calc {
      multiset(a[..|a| - 1]);
      multiset(a) - multiset{x};
      multiset(b) - multiset{x};
      multiset(b[..i]) + multiset(b[i + 1..]);
      multiset(b[..i] + b[i + 1..]);
    }
  }

  lemma {:induction false} NoDuplicatesMultiplicity<T>(s: seq<T>, x: T)
    requires NoDuplicates(s)
    ensures multiset(s)[x] <= 1
  {
    if s != [] {
      assert s == [s[0]] + s[1..];
      NoDuplicatesMultiplicity(s[1..], x);
      if s[0] == x {
        assert x !in s[1..];
      }
    }
  }

  lemma RepeatedMultiplicity<T>(s: seq<T>, i: nat, j: nat)
    requires i < j < |s| && s[i] == s[j]
    ensures multiset(s)[s[i]] >= 2
  {
    assert s == s[..i] + [s[i]] + s[i + 1..j] + [s[j]] + s[j + 1..];
  }

  /** Why the tree is a code for `input`: its leaf characters are exactly the
      characters of `input`, each once, with its number of occurrences as
      count; and the root weighs the length of `input`. */
  lemma HuffmanTreeLeaves(root: HuffmanNode, input: seq<char>)
    requires IsTreeOver(root, input)
    ensures NoDuplicates(LeafChars(root))
    ensures forall c :: c in LeafChars(root) <==> c in input
    ensures forall v | v in Leaves(root) :: v.count == multiset(input)[v.ch]
    ensures root.CountSubBranches() == |input|
  {
    FrequencyValuesDistinct(input);
    LeavesAreCounted(root, input);
    LeafCharsDistinct(root, input);
    LeafCharsAreInput(root, input);
    WeightIsLeafTotal(root);
    LeafTotalPermutation(Leaves(root), FrequencyValues(input));
    FrequencyValuesTotal(input);
  }

  /** No two counted leaves are equal: their characters are distinct. */
  lemma FrequencyValuesDistinct(input: seq<char>)
    ensures NoDuplicates(FrequencyValues(input))
  {
    var values := FrequencyValues(input);
    forall i, j | 0 <= i < j < |values| ensures values[i] != values[j] {
      assert values[i].ch == Distinct(input)[i];
    }
  }

  /** Every leaf of a tree over `input` is one of its counted leaves. */
  lemma LeavesAreCounted(root: HuffmanNode, input: seq<char>)
    requires IsTreeOver(root, input)
    ensures forall v | v in Leaves(root) :: v in FrequencyValues(input)
  {
    forall v | v in Leaves(root)
      ensures v in FrequencyValues(input)
    {
      assert v in multiset(Leaves(root));
    }
  }

  /** The counted leaves carry distinct characters. */
  lemma FrequencyCharsDistinct(input: seq<char>)
    ensures forall a, b | 0 <= a < b < |FrequencyValues(input)| ::
              FrequencyValues(input)[a].ch != FrequencyValues(input)[b].ch
  {
    var values, d := FrequencyValues(input), Distinct(input);
    forall a, b | 0 <= a < b < |values| ensures values[a].ch != values[b].ch {
      assert values[a].ch == d[a] && values[b].ch == d[b];
    }
  }

  /** A rearrangement of leaves with distinct characters has distinct characters. */
  lemma PermutedCharsDistinct(leaves: seq<HuffmanValue>, values: seq<HuffmanValue>)
    requires multiset(leaves) == multiset(values)
    requires forall a, b | 0 <= a < b < |values| :: values[a].ch != values[b].ch
    ensures forall i, j | 0 <= i < j < |leaves| :: leaves[i].ch != leaves[j].ch
  {
    assert NoDuplicates(values);
    forall i, j | 0 <= i < j < |leaves|
      ensures leaves[i].ch != leaves[j].ch
    {
      if leaves[i] == leaves[j] {
        RepeatedMultiplicity(leaves, i, j);
        NoDuplicatesMultiplicity(values, leaves[i]);
      } else {
        assert leaves[i] in multiset(values) && leaves[j] in multiset(values);
        var a :| 0 <= a < |values| && values[a] == leaves[i];
        var b :| 0 <= b < |values| && values[b] == leaves[j];
        assert a != b;
        if a < b {
          assert values[a].ch != values[b].ch;
        } else {
          assert values[b].ch != values[a].ch;
        }
      }
    }
  }

  lemma LeafCharsDistinct(root: HuffmanNode, input: seq<char>)
    requires IsTreeOver(root, input)
    ensures NoDuplicates(LeafChars(root))
  {
    FrequencyCharsDistinct(input);
    PermutedCharsDistinct(Leaves(root), FrequencyValues(input));
    var leaves, chars := Leaves(root), LeafChars(root);
    forall i, j | 0 <= i < j < |chars| ensures chars[i] != chars[j] {
      assert chars[i] == leaves[i].ch && chars[j] == leaves[j].ch;
    }
  }

  lemma LeafCharsAreInput(root: HuffmanNode, input: seq<char>)
    requires IsTreeOver(root, input)
    requires forall v | v in Leaves(root) :: v in FrequencyValues(input)
    ensures forall c :: c in LeafChars(root) <==> c in input
  {
    var leaves, values := Leaves(root), FrequencyValues(input);
    forall c
      ensures c in LeafChars(root) <==> c in input
    {
      if c in input {
        var k :| 0 <= k < |Distinct(input)| && Distinct(input)[k] == c;
        assert values[k] in multiset(leaves);
        var i :| 0 <= i < |leaves| && leaves[i] == values[k];
        assert LeafChars(root)[i] == c;
      }
      if c in LeafChars(root) {
        var i :| 0 <= i < |leaves| && LeafChars(root)[i] == c;
        assert leaves[i] in values;
      }
    }
  }

  /** The total count does not depend on the order of the leaves. */
  lemma {:induction false} LeafTotalPermutation(a: seq<HuffmanValue>, b: seq<HuffmanValue>)
    requires multiset(a) == multiset(b)
    ensures LeafTotal(a) == LeafTotal(b)
    decreases |a|
  {
    if a != [] {
      var init, x := a[..|a| - 1], a[|a| - 1];
      assert a == init + [x];
      assert x in multiset(b);
      var i :| 0 <= i < |b| && b[i] == x;
      var b' := b[..i] + b[i + 1..];
      MultisetRemove(a, b, i);
      assert b == b[..i] + [x] + b[i + 1..];
      LeafTotalPermutation(init, b');
      LeafTotalConcat(init, [x]);
      LeafTotalConcat(b[..i] + [x], b[i + 1..]);
      LeafTotalConcat(b[..i], [x]);
      LeafTotalConcat(b[..i], b[i + 1..]);
      assert LeafTotal([x]) == x.count by { assert [x][1..] == []; }
    }
  }

  // ---------------------------------------------------------------------------
  // Code assignment, the inner `recurse_node` (compress.rs:80-102).

  /** The codes a walk from `n` along `path` assigns: `false` appended going to
      `t`, `true` going to `f`, and at a leaf its character mapped to the path;
      a leaf met later replaces an earlier one with the same character, as
      `HashMap::insert` does. */
  function CodeMap(n: HuffmanNode, path: seq<bool>): map<char, seq<bool>>
  {
    match n
    case Branch(b) => CodeMap(b.t, path + [false]) + CodeMap(b.f, path + [true])
    case Value(v) => map[v.ch := path]
    case None => map[]
  }

  /** The depth of the deepest leaf below `n`, a leaf itself at depth 0. */
  function Height(n: HuffmanNode): nat
  {
    match n
    case Branch(b) => 1 + Max(Height(b.t), Height(b.f))
    case Value(_) => 0
    case None => 0
  }

  function Max(a: nat, b: nat): nat
  {
    if a < b then b else a
  }

  /** The walk itself: it adds the codes below `node` to the cache and raises
      the highest depth seen to the depth of the deepest leaf below `node`. */
  method RecurseNode(node: HuffmanNode, cacheEncode: map<char, seq<bool>>, branchPath: seq<bool>,
                     depth: nat, highestDepth: nat)
    returns (cache: map<char, seq<bool>>, highest: nat)
    requires IsComplete(node)
    ensures cache == cacheEncode + CodeMap(node, branchPath)
    ensures highest == Max(highestDepth, depth + Height(node))
    decreases node
  {
    match node {
      case Branch(branch) =>
        var left := branchPath + [false];
        cache, highest := RecurseNode(branch.t, cacheEncode, left, depth + 1, highestDepth);
        var right := branchPath + [true];
        cache, highest := RecurseNode(branch.f, cache, right, depth + 1, highest);
        MapUnionAssociative(cacheEncode, CodeMap(branch.t, left), CodeMap(branch.f, right));
        MaxAssociative(highestDepth, depth + 1 + Height(branch.t), depth + 1 + Height(branch.f));
      case Value(value) =>
        highest := if depth > highestDepth then depth else highestDepth;
        cache := cacheEncode[value.ch := branchPath];
        assert cache == cacheEncode + map[value.ch := branchPath];
    }
  }

  lemma MapUnionAssociative<K, V>(a: map<K, V>, b: map<K, V>, c: map<K, V>)
    ensures a + b + c == a + (b + c)
  {
  }

  lemma MaxAssociative(a: nat, b: nat, c: nat)
    ensures Max(Max(a, b), c) == Max(a, Max(b, c))
  {
  }

  /** Every leaf character gets a code, and only leaf characters do. */
  lemma {:induction false} CodeMapKeys(n: HuffmanNode, path: seq<bool>)
    ensures forall c :: c in CodeMap(n, path) <==> c in LeafChars(n)
  {
    if n.Branch? {
      CodeMapKeys(n.branch.t, path + [false]);
      CodeMapKeys(n.branch.f, path + [true]);
    }
  }

  /** Every code is `path` followed by a path from `n` to its character, no
      longer than the deepest leaf. */
  lemma {:induction false} CodeMapPath(n: HuffmanNode, path: seq<bool>, c: char)
    requires c in CodeMap(n, path)
    ensures IsPrefix(path, CodeMap(n, path)[c])
    ensures IsPathTo(n, CodeMap(n, path)[c][|path|..], c)
    ensures |CodeMap(n, path)[c]| <= |path| + Height(n)
  {
    var q := CodeMap(n, path)[c];
    if n.Branch? {
      var b := n.branch;
      var bit := c in CodeMap(b.f, path + [true]);
      var sub := if bit then b.f else b.t;
      var p' := path + [bit];
      assert c in CodeMap(sub, p') && q == CodeMap(sub, p')[c];
      CodeMapPath(sub, p', c);
      assert q[..|p'|] == p';
      assert q[..|path|] == path by {
        assert q[..|path|] == q[..|p'|][..|path|];
        assert p'[..|path|] == path;
      }
      var rest := q[|path|..];
      assert rest[0] == bit by {
        assert rest[0] == q[..|p'|][|path|] && p'[|path|] == bit;
      }
      assert rest[1..] == q[|p'|..];
      assert IsPathTo(n, rest, c);
    } else {
      assert q[|path|..] == [];
    }
  }

  /** With no character on two leaves, the codes are exactly the leaf paths:
      every path from `n` to a leaf is the code of that leaf's character. */
  lemma {:induction false} CodeMapComplete(n: HuffmanNode, path: seq<bool>, q: seq<bool>, c: char)
    requires NoDuplicates(LeafChars(n))
    requires IsPathTo(n, q, c)
    ensures c in CodeMap(n, path) && CodeMap(n, path)[c] == path + q
    decreases |q|
  {
    if q == [] {
      assert path + q == path;
    } else {
      var b := n.branch;
      var lt, lf := LeafChars(b.t), LeafChars(b.f);
      assert LeafChars(n) == lt + lf;
      assert NoDuplicates(lt) by {
        forall i, j | 0 <= i < j < |lt| ensures lt[i] != lt[j] {
          assert lt[i] == LeafChars(n)[i] && lt[j] == LeafChars(n)[j];
        }
      }
      assert NoDuplicates(lf) by {
        forall i, j | 0 <= i < j < |lf| ensures lf[i] != lf[j] {
          assert lf[i] == LeafChars(n)[|lt| + i] && lf[j] == LeafChars(n)[|lt| + j];
        }
      }
      var p' := path + [q[0]];
      assert p' + q[1..] == path + q;
      if q[0] {
        CodeMapComplete(b.f, p', q[1..], c);
      } else {
        CodeMapComplete(b.t, p', q[1..], c);
        PathLeadsToLeaf(b.t, q[1..], c);
        CodeMapKeys(b.f, path + [true]);
        assert c in lt;
        assert c !in lf by {
          var i :| 0 <= i < |lt| && lt[i] == c;
          forall j | 0 <= j < |lf| ensures lf[j] != c {
            assert LeafChars(n)[i] != LeafChars(n)[|lt| + j];
          }
        }
      }
    }
  }

  /** The codes from the root are prefix free: no character's code begins
      another character's code, so a bit stream splits into codes one way. */
  lemma CodesPrefixFree(root: HuffmanNode)
    ensures var m := CodeMap(root, []);
            forall c, d | c in m && d in m && c != d :: !IsPrefix(m[c], m[d])
  {
    var m := CodeMap(root, []);
    forall c, d | c in m && d in m && c != d
      ensures !IsPrefix(m[c], m[d])
    {
      CodeMapPath(root, [], c);
      CodeMapPath(root, [], d);
      assert m[c][0..] == m[c] && m[d][0..] == m[d];
      if IsPrefix(m[c], m[d]) {
        PathsPrefixFree(root, m[c], c, m[d], d);
      }
    }
  }

  /** The deepest leaf of a complete tree is less deep than the tree has leaves. */
  lemma {:induction false} HeightBound(n: HuffmanNode)
    requires IsComplete(n)
    ensures Height(n) <= |Leaves(n)| - 1
  {
    if n.Branch? {
      HeightBound(n.branch.t);
      HeightBound(n.branch.f);
      CompleteHasLeaf(n.branch.t);
      CompleteHasLeaf(n.branch.f);
    }
  }

  /** Some leaf of a complete tree lies as deep as the tree is high. */
  lemma {:induction false} DeepestPath(n: HuffmanNode)
    requires IsComplete(n)
    ensures exists q, c :: IsPathTo(n, q, c) && |q| == Height(n)
  {
    if n.Branch? {
      var b := n.branch;
      var bit := Height(b.t) < Height(b.f);
      var child := if bit then b.f else b.t;
      DeepestPath(child);
      var q, c :| IsPathTo(child, q, c) && |q| == Height(child);
      assert ([bit] + q)[1..] == q;
      assert IsPathTo(n, [bit] + q, c);
    } else {
      assert IsPathTo(n, [], n.value.ch);
    }
  }

  /** `highest_depth` after the walk from the root is the length of the
      longest code: no code is longer, and some code is that long. */
  lemma HeightIsLongestCode(root: HuffmanNode, input: seq<char>)
    requires IsTreeOver(root, input)
    ensures forall c | c in CodeMap(root, []) :: |CodeMap(root, [])[c]| <= Height(root)
    ensures exists c | c in CodeMap(root, []) :: |CodeMap(root, [])[c]| == Height(root)
  {
    var m := CodeMap(root, []);
    forall c | c in m ensures |m[c]| <= Height(root) {
      CodeMapPath(root, [], c);
    }
    WellFormedIsComplete(root);
    HuffmanTreeLeaves(root, input);
    DeepestPath(root);
    var q, c :| IsPathTo(root, q, c) && |q| == Height(root);
    CodeMapComplete(root, [], q, c);
    assert [] + q == q;
  }

  lemma {:induction false} WellFormedIsComplete(n: HuffmanNode)
    requires WellFormed(n)
    ensures IsComplete(n)
  {
    if n.Branch? {
      WellFormedIsComplete(n.branch.t);
      WellFormedIsComplete(n.branch.f);
    }
  }

  /** With one distinct character the root is a lone leaf and its code is the
      empty one; with two or more every code has at least one bit. */
  lemma CodeLengths(root: HuffmanNode, input: seq<char>)
    requires IsTreeOver(root, input)
    ensures |Distinct(input)| == 1 <==> root.Value?
    ensures |Distinct(input)| == 1 ==> CodeMap(root, []) == map[input[0] := []]
    ensures |Distinct(input)| >= 2 ==> forall c | c in CodeMap(root, []) :: CodeMap(root, [])[c] != []
  {
    var d := Distinct(input);
    assert |Leaves(root)| == |d| by {
      calc {
        |Leaves(root)|;
        |multiset(Leaves(root))|;
        |multiset(FrequencyValues(input))|;
        |FrequencyValues(input)|;
      }
    }
    WellFormedIsComplete(root);
    if root.Branch? {
      CompleteHasLeaf(root.branch.t);
      CompleteHasLeaf(root.branch.f);
      forall c | c in CodeMap(root, []) ensures CodeMap(root, [])[c] != [] {
        CodeMapPath(root, [], c);
        assert CodeMap(root, [])[c][0..] == CodeMap(root, [])[c];
      }
    }
    if |d| == 1 {
      assert input[0] in d;
      assert root.value.ch == LeafChars(root)[0];
      HuffmanTreeLeaves(root, input);
    }
  }
}
