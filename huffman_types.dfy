/** The tree types of src/huffman_types.rs: a leaf carries a character and its
    count, a branch owns its two children (`t`, taken for a `false` bit, and `f`,
    taken for a `true` bit) and a stored count, and `None` marks a missing node. */
module HuffmanTypes {

  datatype HuffmanValue = HuffmanValue(ch: char, count: nat)

  datatype HuffmanBranch = HuffmanBranch(t: HuffmanNode, f: HuffmanNode, count: nat)
  {
    /** Whether the `t` child is missing. */
    predicate IsTNone()
      ensures IsTNone() <==> t == None
    {
      t.None?
    }

    /** Whether the `f` child is missing. */
    predicate IsFNone()
      ensures IsFNone() <==> f == None
    {
      f.None?
    }
  }

  datatype HuffmanNode = Branch(branch: HuffmanBranch) | Value(value: HuffmanValue) | None
  {
    /** The weight of a node: a leaf's count, a branch's STORED count (never
        recomputed from the children), and 0 for a missing node. */
    function CountSubBranches(): (w: nat)
      ensures Value? ==> w == value.count
      ensures Branch? ==> w == branch.count
      ensures None? ==> w == 0
    {
      match this
      case Branch(b) => b.count
      case Value(v) => v.count
      case None => 0
    }
  }

  /** No `None` anywhere in the tree: the shape every tree built by the encoder has. */
  predicate IsComplete(n: HuffmanNode)
  {
    match n
    case Branch(b) => IsComplete(b.t) && IsComplete(b.f)
    case Value(_) => true
    case None => false
  }

  /** A complete tree whose leaves all count at least one occurrence and whose
      every branch stores the sum of its children's weights. */
  predicate WellFormed(n: HuffmanNode)
  {
    match n
    case Branch(b) =>
      WellFormed(b.t) && WellFormed(b.f) && b.count == b.t.CountSubBranches() + b.f.CountSubBranches()
    case Value(v) => v.count >= 1
    case None => false
  }

  /** The leaves in pre-order, `t` before `f`. */
  function Leaves(n: HuffmanNode): seq<HuffmanValue>
  {
    match n
    case Branch(b) => Leaves(b.t) + Leaves(b.f)
    case Value(v) => [v]
    case None => []
  }

  /** The leaf characters in pre-order, `t` before `f`. */
  function LeafChars(n: HuffmanNode): (r: seq<char>)
    ensures |r| == |Leaves(n)|
    ensures forall i | 0 <= i < |r| :: r[i] == Leaves(n)[i].ch
  {
    match n
    case Branch(b) => LeafChars(b.t) + LeafChars(b.f)
    case Value(v) => [v.ch]
    case None => []
  }

  /** The sum of the leaf counts. */
  function LeafTotal(leaves: seq<HuffmanValue>): nat
  {
    if leaves == [] then 0 else leaves[0].count + LeafTotal(leaves[1..])
  }

  lemma {:induction false} LeafTotalConcat(a: seq<HuffmanValue>, b: seq<HuffmanValue>)
    ensures LeafTotal(a + b) == LeafTotal(a) + LeafTotal(b)
  {
    if a != [] {
      assert (a + b)[1..] == a[1..] + b;
      LeafTotalConcat(a[1..], b);
    } else {
      assert a + b == b;
    }
  }

  /** In a well-formed tree a node's weight is the total count of its leaves. */
  lemma {:induction false} WeightIsLeafTotal(n: HuffmanNode)
    requires WellFormed(n)
    ensures n.CountSubBranches() == LeafTotal(Leaves(n))
  {
    if n.Branch? {
      WeightIsLeafTotal(n.branch.t);
      WeightIsLeafTotal(n.branch.f);
      LeafTotalConcat(Leaves(n.branch.t), Leaves(n.branch.f));
    }
  }

  /** The encoder's trees never have a missing child. */
  lemma BranchChildrenPresent(b: HuffmanBranch)
    requires IsComplete(Branch(b))
    ensures !b.IsTNone() && !b.IsFNone()
  {
  }

  /** A complete tree has at least one leaf. */
  lemma {:induction false} CompleteHasLeaf(n: HuffmanNode)
    requires IsComplete(n)
    ensures |Leaves(n)| >= 1
  {
    if n.Branch? {
      CompleteHasLeaf(n.branch.t);
    }
  }

  /** `code` leads from `n` to a leaf holding `c`: `false` goes to `t`, `true` to `f`. */
  predicate IsPathTo(n: HuffmanNode, code: seq<bool>, c: char)
    decreases |code|
  {
    if code == [] then n.Value? && n.value.ch == c
    else n.Branch? && IsPathTo(if code[0] then n.branch.f else n.branch.t, code[1..], c)
  }

  predicate IsPrefix(p: seq<bool>, q: seq<bool>)
  {
    |p| <= |q| && q[..|p|] == p
  }

  /** A leaf path never continues past a leaf: of two leaf paths one is a prefix
      of the other only when they are the same path to the same leaf. */
  lemma {:induction false} PathsPrefixFree(n: HuffmanNode, p: seq<bool>, c: char, q: seq<bool>, d: char)
    requires IsPathTo(n, p, c) && IsPathTo(n, q, d)
    requires IsPrefix(p, q)
    ensures p == q && c == d
    decreases |p|
  {
    if p != [] {
      assert q != [] && q[0] == p[0];
      assert IsPrefix(p[1..], q[1..]) by {
        assert q[1..][..|p| - 1] == q[..|p|][1..];
      }
      PathsPrefixFree(if p[0] then n.branch.f else n.branch.t, p[1..], c, q[1..], d);
      assert p == [p[0]] + p[1..] && q == [q[0]] + q[1..];
    }
  }

  /** Every leaf path ends at a leaf character. */
  lemma {:induction false} PathLeadsToLeaf(n: HuffmanNode, q: seq<bool>, c: char)
    requires IsPathTo(n, q, c)
    ensures c in LeafChars(n)
    decreases |q|
  {
    if q != [] {
      PathLeadsToLeaf(if q[0] then n.branch.f else n.branch.t, q[1..], c);
    }
  }
}
