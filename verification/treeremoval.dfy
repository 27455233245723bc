/** Removal of a chunk from a tree bin, back at the level of bins. */
module TreeRemoval {
  import opened Words
  import opened Chunks
  import opened Bits
  import opened Tries
  import opened Bins
  import opened TreeBins
  import opened TreeCuts

  ghost function BitsAfter(bits: int, t: Tree, i: int): int
    requires 0 <= i < 32 && 0 <= bits
  {
    if t.Nil? then Clear(bits, i) else bits
  }
  ghost function Removed(t: Tree, n: Tree, k: int): Tree
    requires n.Node? && n.size in Sizes(t) && 0 <= k < |n.ring|
  {
    Put(t, n.size, DelNode(n, k))
  }

  lemma BinRooted(m: Mem, C: Chunks, base: int, top: int, bits: int, t: Tree, i: int)
    requires Shape(C, base, top) && top < W32 && TreeBin(m, C, base, bits, t, i)
    ensures Rooted(m, t, TreebinAt(base, i), i)
  {
    BinTree(m, C, base, top, bits, t, i);
  }
  lemma BinRemoved(m: Mem, m': Mem, C: Chunks, base: int, top: int, bits: int, t: Tree, i: int, n: Tree, k: int)
    requires Shape(C, base, top) && top < W32 && TreeBin(m, C, base, bits, t, i) && At(t, n) && 0 <= k < |n.ring|
    requires InTree(m', Removed(t, n, k), TreebinAt(base, i), i)
      && Fld(m', TreebinAt(base, i), 0) == Root(Removed(t, n, k))
    requires OnlyLinks(m, m', Members(t), TreebinAt(base, i))
    ensures TreeBin(m', C, base, BitsAfter(bits, Removed(t, n, k), i), Removed(t, n, k), i)
    ensures OnlyBin(m, m', C, base, 32 + i)
    ensures forall y :: y in Members(Removed(t, n, k)) <==> y in Members(t) && y != n.ring[k]
  {
    RemovedTrie(t, n, k, Lo(i), Span(i));
    RemovedFits(m, C, base, top, bits, t, i, n, k);
    RemovedMembers(m, C, base, top, bits, t, i, n, k);
    ClearBit(bits, i, i);
    LinksOnly(m, m', C, base, top, bits, t, i);
  }
  lemma LinksOnly(m: Mem, m': Mem, C: Chunks, base: int, top: int, bits: int, t: Tree, i: int)
    requires Shape(C, base, top) && top < W32 && TreeBin(m, C, base, bits, t, i)
    requires OnlyLinks(m, m', Members(t), TreebinAt(base, i))
    ensures OnlyBin(m, m', C, base, 32 + i)
  {
    forall a | Fld(m', a, 0) != Fld(m, a, 0) ensures InBin(C, base, 32 + i, a) {
      if a != TreebinAt(base, i) {
        var y :| InNode(Members(t), y, a);
        MemberWord(m, C, base, top, bits, t, i, y, a - y);
      }
    }
  }
  lemma RemovedTrie(t: Tree, n: Tree, k: int, lo: int, w: int)
    requires At(t, n) && 0 <= k < |n.ring| && Trie(t, lo, w)
    ensures Trie(Removed(t, n, k), lo, w) && Sizes(Removed(t, n, k)) <= Sizes(t)
  {
    forall lo', w' | Trie(n, lo', w') ensures Trie(DelNode(n, k), lo', w') && Sizes(DelNode(n, k)) <= Sizes(n) {
      DelNodeSizes(n, k, lo', w');
    }
    var lo1, w1 := SubTrie(t, n.size, lo, w);
    PutTrie(t, n.size, DelNode(n, k), lo, w);
  }
  lemma {:induction false} SubTrie(t: Tree, s: int, lo: int, w: int) returns (lo': int, w': int)
    requires s in Sizes(t) && Trie(t, lo, w)
    ensures Trie(Sub(t, s), lo', w')
  {
    if t.size == s { lo', w' := lo, w; }
    else if Dir(t, s) { lo', w' := SubTrie(t.right, s, lo + w / 2, w - w / 2); }
    else { lo', w' := SubTrie(t.left, s, lo, w / 2); }
  }
  lemma RemovedFits(m: Mem, C: Chunks, base: int, top: int, bits: int, t: Tree, i: int, n: Tree, k: int)
    requires Shape(C, base, top) && top < W32 && TreeBin(m, C, base, bits, t, i) && At(t, n) && 0 <= k < |n.ring|
    ensures Fits(Removed(t, n, k), C)
  {
    BinTree(m, C, base, top, bits, t, i);
    SubFits(t, n.size, C); SubUniq(t, n.size); DelNodeFits(n, k, C);
    PutFits(t, n.size, DelNode(n, k), C);
  }
  lemma RemovedMembers(m: Mem, C: Chunks, base: int, top: int, bits: int, t: Tree, i: int, n: Tree, k: int)
    requires Shape(C, base, top) && top < W32 && TreeBin(m, C, base, bits, t, i) && At(t, n) && 0 <= k < |n.ring|
    ensures forall y :: y in Members(Removed(t, n, k)) <==> y in Members(t) && y != n.ring[k]
  {
    BinRooted(m, C, base, top, bits, t, i);
    NodePlace(m, t, TreebinAt(base, i), i, n);
    DelNodeMembers(n, k);
    OthersApart(t, n.size);
    PutMembers(t, n.size, DelNode(n, k));
    assert n.ring[k] in n.ring;
    forall y ensures y in Members(Removed(t, n, k)) <==> y in Members(t) && y != n.ring[k] {
      assert y in Members(DelNode(n, k)) <==> y in Members(n) && y != n.ring[k];
    }
  }
  // the node that holds a given chunk
  lemma {:induction false} Find(t: Tree, C: Chunks, x: int) returns (n: Tree, k: int)
    requires Fits(t, C) && Uniq(t) && x in Members(t)
    ensures At(t, n) && 0 <= k < |n.ring| && n.ring[k] == x && x in C && n.size == C[x].size
  {
    if x in t.ring {
      n := t;
      k :| 0 <= k < |n.ring| && n.ring[k] == x;
    } else {
      var d := x !in Members(t.left);
      n, k := Find(Kid(t, d), C, x);
      assert Dir(t, n.size) == d;
    }
  }
}
