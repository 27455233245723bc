/** The tree bins of kernel/malloc.c: bitwise tries keyed on chunk size whose nodes are rings of equal-sized chunks. */
module Tries {
  import opened Words
  import opened Chunks

  const CHILD0 := 16
  const CHILD1 := 20
  const PARENT := 24
  const INDEX := 28

  // A node stands for all chunks of one size; ring[0] is the one that is linked into the tree.
  datatype Tree = Nil | Node(ring: seq<int>, size: int, left: Tree, right: Tree)

  ghost function Root(t: Tree): int { if t.Node? && |t.ring| > 0 then t.ring[0] else 0 }
  ghost function Members(t: Tree): set<int> {
    match t case Nil => {} case Node(r, _, a, b) => (set x | x in r) + Members(a) + Members(b)
  }
  ghost function Sizes(t: Tree): set<int> {
    match t case Nil => {} case Node(_, s, a, b) => {s} + Sizes(a) + Sizes(b)
  }
  ghost function Kid(t: Tree, right: bool): Tree requires t.Node? { if right then t.right else t.left }
  ghost function WithKid(t: Tree, right: bool, k: Tree): Tree
    requires t.Node?
  {
    if right then t.(right := k) else t.(left := k)
  }
  ghost function KidField(right: bool): int { if right then CHILD1 else CHILD0 }

  // ---- representation: the words of memory that make up the tree ----

  ghost predicate RingNode(m: Mem, ring: seq<int>, idx: int) {
    && Ring(m, ring)
    && (forall x :: x in ring ==> Fld(m, x, INDEX) == idx)
    && (forall x ::
          x in ring && x != ring[0] ==> Fld(m, x, PARENT) == 0 && Fld(m, x, CHILD0) == 0 && Fld(m, x, CHILD1) == 0)
  }
  ghost predicate InTree(m: Mem, t: Tree, parent: int, idx: int) {
    match t
    case Nil => true
    case Node(ring, _, a, b) =>
      && RingNode(m, ring, idx)
      && Fld(m, ring[0], PARENT) == parent
      && Fld(m, ring[0], CHILD0) == Root(a)
      && Fld(m, ring[0], CHILD1) == Root(b)
      && InTree(m, a, ring[0], idx)
      && InTree(m, b, ring[0], idx)
  }
  // no chunk is listed twice
  ghost predicate Proper(t: Tree) {
    t.Node? ==>
      && |t.ring| > 0
      && (forall x :: x in t.ring ==> x !in Members(t.left) && x !in Members(t.right))
      && (forall x :: x in Members(t.left) ==> x !in Members(t.right))
      && Proper(t.left) && Proper(t.right)
  }
  ghost predicate Same(m: Mem, m': Mem, s: set<int>) {
    forall x, o :: x in s && 8 <= o < 32 ==> Fld(m', x, o) == Fld(m, x, o)
  }
  lemma {:induction false} InTreeFrame(m: Mem, m': Mem, t: Tree, parent: int, idx: int)
    requires InTree(m, t, parent, idx) && Same(m, m', Members(t))
    ensures InTree(m', t, parent, idx)
  {
    if t.Node? {
      assert forall x :: x in t.ring ==> x in Members(t);
      RingFrame(m, t.ring, m');
      InTreeFrame(m, m', t.left, t.ring[0], idx);
      InTreeFrame(m, m', t.right, t.ring[0], idx);
    }
  }
  lemma RingNodeFrame(m: Mem, m': Mem, ring: seq<int>, idx: int)
    requires RingNode(m, ring, idx)
    requires forall x, o ::
               x in ring && 8 <= o < 32 && !(x == ring[0] && (o == CHILD0 || o == CHILD1))
               ==> Fld(m', x, o) == Fld(m, x, o)
    ensures RingNode(m', ring, idx)
  {
    RingFrame(m, ring, m');
  }
  lemma RootIn(t: Tree)
    requires Proper(t) && t.Node?
    ensures Root(t) in t.ring && Root(t) in Members(t)
  {}

  // ---- the trie: the sizes under a node share the node's leading bits, and each size has one node ----

  ghost predicate Trie(t: Tree, lo: int, w: int) {
    t.Node? ==>
      && lo <= t.size < lo + w
      && t.size !in Sizes(t.left) && t.size !in Sizes(t.right)
      && Trie(t.left, lo, w / 2) && Trie(t.right, lo + w / 2, w - w / 2)
  }
  ghost predicate Uniq(t: Tree) {
    t.Node? ==>
      && t.size !in Sizes(t.left) && t.size !in Sizes(t.right)
      && (forall z :: z in Sizes(t.left) ==> z !in Sizes(t.right))
      && Uniq(t.left) && Uniq(t.right)
  }
  ghost predicate Fits(t: Tree, C: Chunks) {
    t.Node? ==> (forall x :: x in t.ring ==> Free(C, x, t.size)) && Fits(t.left, C) && Fits(t.right, C)
  }
  lemma {:induction false} TrieRange(t: Tree, lo: int, w: int)
    requires Trie(t, lo, w)
    ensures forall z :: z in Sizes(t) ==> lo <= z < lo + w
  {
    if t.Node? {
      TrieRange(t.left, lo, w / 2);
      TrieRange(t.right, lo + w / 2, w - w / 2);
    }
  }
  lemma {:induction false} TrieUniq(t: Tree, lo: int, w: int)
    requires Trie(t, lo, w)
    ensures Uniq(t)
  {
    if t.Node? {
      TrieRange(t.left, lo, w / 2);
      TrieRange(t.right, lo + w / 2, w - w / 2);
      TrieUniq(t.left, lo, w / 2);
      TrieUniq(t.right, lo + w / 2, w - w / 2);
    }
  }
  lemma {:induction false} FitsMember(t: Tree, C: Chunks, x: int)
    requires Fits(t, C) && x in Members(t)
    ensures x in C && !C[x].used && C[x].size in Sizes(t)
  {
    if x !in t.ring { FitsMember(Kid(t, x !in Members(t.left)), C, x); }
  }
  lemma {:induction false} FitsProper(m: Mem, t: Tree, parent: int, idx: int, C: Chunks)
    requires Fits(t, C) && Uniq(t) && InTree(m, t, parent, idx)
    ensures Proper(t)
  {
    if t.Node? {
      FitsProper(m, t.left, t.ring[0], idx, C);
      FitsProper(m, t.right, t.ring[0], idx, C);
      forall x | x in Members(t.left) ensures x !in t.ring && x !in Members(t.right) {
        FitsMember(t.left, C, x);
        if x in Members(t.right) { FitsMember(t.right, C, x); }
      }
      forall x | x in Members(t.right) ensures x !in t.ring { FitsMember(t.right, C, x); }
    }
  }

  // ---- one subtree of a tree, found by the size of its root ----

  ghost function Dir(t: Tree, s: int): bool requires t.Node? { s !in Sizes(t.left) }
  ghost function Sub(t: Tree, s: int): Tree
    requires s in Sizes(t)
  {
    if t.size == s then t else Sub(Kid(t, Dir(t, s)), s)
  }
  ghost function Put(t: Tree, s: int, n: Tree): Tree
    requires s in Sizes(t)
  {
    if t.size == s then n else WithKid(t, Dir(t, s), Put(Kid(t, Dir(t, s)), s, n))
  }
  // the word that points to the subtree (an address and a field), and the subtree's parent
  ghost function Slot(t: Tree, s: int, slot: (int, int)): (int, int)
    requires s in Sizes(t)
  {
    if t.size == s then slot else Slot(Kid(t, Dir(t, s)), s, (Root(t), KidField(Dir(t, s))))
  }
  ghost function Parent(t: Tree, s: int, parent: int): int
    requires s in Sizes(t)
  {
    if t.size == s then parent else Parent(Kid(t, Dir(t, s)), s, Root(t))
  }
  // the chunks of the tree that are not in the subtree
  ghost function Others(t: Tree, s: int): set<int>
    requires s in Sizes(t)
  {
    if t.size == s then {}
    else (set x | x in t.ring) + Members(Kid(t, !Dir(t, s))) + Others(Kid(t, Dir(t, s)), s)
  }
  lemma {:induction false} SubSizes(t: Tree, s: int)
    requires s in Sizes(t)
    ensures Sub(t, s).Node? && Sub(t, s).size == s
    ensures Sizes(Sub(t, s)) <= Sizes(t) && Members(Sub(t, s)) <= Members(t)
  {
    if t.size != s { SubSizes(Kid(t, Dir(t, s)), s); }
  }
  lemma {:induction false} SubSub(t: Tree, a: int, b: int, slot: (int, int), parent: int)
    requires Uniq(t) && a in Sizes(t) && b in Sizes(Sub(t, a))
    ensures b in Sizes(t)
    ensures Sub(t, b) == Sub(Sub(t, a), b)
    ensures Slot(t, b, slot) == Slot(Sub(t, a), b, Slot(t, a, slot))
    ensures Parent(t, b, parent) == Parent(Sub(t, a), b, Parent(t, a, parent))
  {
    if t.size != a {
      var d := Dir(t, a);
      SubSizes(Kid(t, d), a);
      SubSub(Kid(t, d), a, b, (Root(t), KidField(d)), Root(t));
    }
  }
  lemma {:induction false} PutPut(t: Tree, a: int, b: int, n: Tree)
    requires Uniq(t) && a in Sizes(t) && b in Sizes(Sub(t, a))
    ensures b in Sizes(t)
    ensures Put(t, b, n) == Put(t, a, Put(Sub(t, a), b, n))
  {
    if t.size != a {
      SubSizes(Kid(t, Dir(t, a)), a);
      PutPut(Kid(t, Dir(t, a)), a, b, n);
    }
  }
  lemma {:induction false} SubInTree(m: Mem, t: Tree, s: int, parent: int, slot: (int, int), idx: int)
    requires s in Sizes(t) && InTree(m, t, parent, idx)
    ensures InTree(m, Sub(t, s), Parent(t, s, parent), idx)
    ensures t.size != s ==> Fld(m, Slot(t, s, slot).0, Slot(t, s, slot).1) == Root(Sub(t, s))
    ensures t.size != s ==> Slot(t, s, slot).0 == Parent(t, s, parent)
  {
    if t.size != s { SubInTree(m, Kid(t, Dir(t, s)), s, Root(t), (Root(t), KidField(Dir(t, s))), idx); }
  }
  lemma {:induction false} SubFits(t: Tree, s: int, C: Chunks)
    requires s in Sizes(t) && Fits(t, C)
    ensures Fits(Sub(t, s), C)
  {
    if t.size != s { SubFits(Kid(t, Dir(t, s)), s, C); }
  }
  lemma {:induction false} SubUniq(t: Tree, s: int)
    requires s in Sizes(t) && Uniq(t)
    ensures Uniq(Sub(t, s))
  {
    if t.size != s { SubUniq(Kid(t, Dir(t, s)), s); }
  }
  lemma {:induction false} SubProper(t: Tree, s: int)
    requires s in Sizes(t) && Proper(t)
    ensures Proper(Sub(t, s))
  {
    if t.size != s { SubProper(Kid(t, Dir(t, s)), s); }
  }
  lemma {:induction false} SlotIn(t: Tree, s: int, slot: (int, int))
    requires s in Sizes(t) && Proper(t) && t.size != s
    ensures Slot(t, s, slot).0 in Members(t) && Slot(t, s, slot).0 in Others(t, s)
    ensures Slot(t, s, slot).1 == CHILD0 || Slot(t, s, slot).1 == CHILD1
  {
    RootIn(t);
    var d := Dir(t, s);
    if Kid(t, d).size != s { SlotIn(Kid(t, d), s, (Root(t), KidField(d))); }
  }
  lemma {:induction false} OthersApart(t: Tree, s: int)
    requires s in Sizes(t) && Proper(t)
    ensures forall x :: x in Others(t, s) ==> x in Members(t) && x !in Members(Sub(t, s))
    ensures forall x :: x in Members(t) ==> x in Others(t, s) || x in Members(Sub(t, s))
  {
    if t.size != s {
      SubSizes(Kid(t, Dir(t, s)), s);
      OthersApart(Kid(t, Dir(t, s)), s);
    }
  }
  lemma {:induction false} PutMembers(t: Tree, s: int, n: Tree)
    requires s in Sizes(t)
    ensures Members(Put(t, s, n)) == Others(t, s) + Members(n)
  {
    if t.size != s { PutMembers(Kid(t, Dir(t, s)), s, n); }
  }
  lemma {:induction false} PutFits(t: Tree, s: int, n: Tree, C: Chunks)
    requires s in Sizes(t) && Fits(t, C) && Fits(n, C)
    ensures Fits(Put(t, s, n), C)
  {
    if t.size != s { PutFits(Kid(t, Dir(t, s)), s, n, C); }
  }
  lemma {:induction false} PutTrie(t: Tree, s: int, n: Tree, lo: int, w: int)
    requires s in Sizes(t) && Trie(t, lo, w)
    requires Sizes(n) <= Sizes(Sub(t, s))
    requires forall lo', w' :: Trie(Sub(t, s), lo', w') ==> Trie(n, lo', w')
    ensures Trie(Put(t, s, n), lo, w) && Sizes(Put(t, s, n)) <= Sizes(t)
  {
    if t.size != s {
      if Dir(t, s) { PutTrie(t.right, s, n, lo + w / 2, w - w / 2); }
      else { PutTrie(t.left, s, n, lo, w / 2); }
    }
  }

  // Replacing a subtree in memory: its own words, the word that points to it, and nothing else of the tree.
  ghost predicate SameBut(m: Mem, m': Mem, s: set<int>, slot: (int, int)) {
    forall x, o :: x in s && 8 <= o < 32 && (x, o) != slot ==> Fld(m', x, o) == Fld(m, x, o)
  }
  lemma {:induction false} PutInTree(m: Mem, m': Mem, t: Tree, s: int, n: Tree, parent: int, slot: (int, int), idx: int)
    requires s in Sizes(t) && InTree(m, t, parent, idx) && Proper(t)
    requires InTree(m', n, Parent(t, s, parent), idx)
    requires Fld(m', Slot(t, s, slot).0, Slot(t, s, slot).1) == Root(n)
    requires SameBut(m, m', Others(t, s), Slot(t, s, slot))
    ensures InTree(m', Put(t, s, n), parent, idx)
    ensures t.size != s ==> Root(Put(t, s, n)) == Root(t)
  {
    if t.size != s {
      var d := Dir(t, s);
      PutInTree(m, m', Kid(t, d), s, n, Root(t), (Root(t), KidField(d)), idx);
      PutKid(m, m', t, s, n, parent, slot, idx);
    }
  }
  lemma PutKid(m: Mem, m': Mem, t: Tree, s: int, n: Tree, parent: int, slot: (int, int), idx: int)
    requires s in Sizes(t) && t.size != s && InTree(m, t, parent, idx) && Proper(t)
    requires InTree(m', Put(Kid(t, Dir(t, s)), s, n), Root(t), idx)
    requires Kid(t, Dir(t, s)).size != s ==> Root(Put(Kid(t, Dir(t, s)), s, n)) == Root(Kid(t, Dir(t, s)))
    requires Fld(m', Slot(t, s, slot).0, Slot(t, s, slot).1) == Root(n)
    requires SameBut(m, m', Others(t, s), Slot(t, s, slot))
    ensures InTree(m', Put(t, s, n), parent, idx)
  {
    var d, sl := Dir(t, s), Slot(t, s, slot);
    var kid, sib := Kid(t, d), Kid(t, !d);
    assert forall x :: x in t.ring ==> x in Others(t, s);
    RootIn(t);
    SlotIn(t, s, slot);
    if kid.size != s { SlotIn(kid, s, (Root(t), KidField(d))); }
    assert sl.0 !in t.ring || sl == (Root(t), KidField(d));
    RingNodeFrame(m, m', t.ring, idx);
    assert Same(m, m', Members(sib)) by {
      if kid.size != s { assert sl.0 in Members(kid); } else { assert sl.0 in t.ring; }
    }
    InTreeFrame(m, m', sib, Root(t), idx);
  }

  lemma PutSameRoot(m: Mem, m': Mem, t: Tree, s: int, n: Tree, parent: int, idx: int)
    requires s in Sizes(t) && InTree(m, t, parent, idx) && Proper(t)
    requires InTree(m', n, Parent(t, s, parent), idx) && Root(n) == Root(Sub(t, s))
    requires Same(m, m', Others(t, s))
    ensures InTree(m', Put(t, s, n), parent, idx) && Root(Put(t, s, n)) == Root(t)
  {
    if t.size != s {
      var slot := (parent, 0);
      SlotIn(t, s, slot);
      SubInTree(m, t, s, parent, slot, idx);
      PutInTree(m, m', t, s, n, parent, slot, idx);
    }
  }

  // ---- insertion ----

  ghost function Ins(t: Tree, lo: int, w: int, s: int, x: int): Tree {
    if t.Nil? then Node([x], s, Nil, Nil)
    else if t.size == s then t.(ring := t.ring + [x])
    else if s < lo + w / 2 then t.(left := Ins(t.left, lo, w / 2, s, x))
    else t.(right := Ins(t.right, lo + w / 2, w - w / 2, s, x))
  }
  lemma {:induction false} InsTrie(t: Tree, lo: int, w: int, s: int, x: int)
    requires Trie(t, lo, w) && lo <= s < lo + w
    ensures Trie(Ins(t, lo, w, s, x), lo, w)
    ensures forall z :: z in Sizes(Ins(t, lo, w, s, x)) <==> z in Sizes(t) || z == s
  {
    if t.Node? && t.size != s {
      if s < lo + w / 2 { InsTrie(t.left, lo, w / 2, s, x); }
      else { InsTrie(t.right, lo + w / 2, w - w / 2, s, x); }
    }
  }
  lemma {:induction false} InsMembers(t: Tree, lo: int, w: int, s: int, x: int)
    ensures forall y :: y in Members(Ins(t, lo, w, s, x)) <==> y in Members(t) || y == x
  {
    if t.Node? && t.size != s {
      if s < lo + w / 2 { InsMembers(t.left, lo, w / 2, s, x); }
      else { InsMembers(t.right, lo + w / 2, w - w / 2, s, x); }
    }
  }
  lemma {:induction false} InsFits(t: Tree, lo: int, w: int, s: int, x: int, C: Chunks)
    requires Fits(t, C) && Free(C, x, s)
    ensures Fits(Ins(t, lo, w, s, x), C)
  {
    if t.Node? && t.size != s {
      if s < lo + w / 2 { InsFits(t.left, lo, w / 2, s, x, C); }
      else { InsFits(t.right, lo + w / 2, w - w / 2, s, x, C); }
    }
  }

  // ---- removal ----

  // the leaf found by going right where possible and left otherwise
  ghost function RightLeaf(t: Tree): (f: Tree)
    requires t.Node?
    ensures f.Node? && f.size in Sizes(t)
  {
    if t.right.Node? then RightLeaf(t.right) else if t.left.Node? then RightLeaf(t.left) else t
  }
  lemma {:induction false} RightLeafIs(t: Tree)
    requires t.Node? && Uniq(t)
    ensures var f := RightLeaf(t);
      && f.left.Nil? && f.right.Nil? && Sub(t, f.size) == f
      && (t.left.Node? || t.right.Node? ==> f.size != t.size)
  {
    if t.right.Node? { RightLeafIs(t.right); } else if t.left.Node? { RightLeafIs(t.left); }
  }
  lemma {:induction false} PutNilSizes(t: Tree, s: int)
    requires s in Sizes(t) && Uniq(t) && Sub(t, s).Node? && Sub(t, s).left.Nil? && Sub(t, s).right.Nil?
    ensures forall z :: z in Sizes(Put(t, s, Nil)) <==> z in Sizes(t) && z != s
  {
    if t.size != s { PutNilSizes(Kid(t, Dir(t, s)), s); } else { assert t == Sub(t, s); }
  }
  lemma {:induction false} PutNilProper(t: Tree, s: int)
    requires s in Sizes(t) && Proper(t)
    ensures Proper(Put(t, s, Nil)) && Members(Put(t, s, Nil)) <= Members(t)
  {
    if t.size != s { PutNilProper(Kid(t, Dir(t, s)), s); }
  }
  // A node after the k-th chunk of its ring is gone: a shorter ring, or else its right leaf in its place.
  ghost function DelNode(n: Tree, k: int): Tree requires n.Node? && 0 <= k < |n.ring| {
    if |n.ring| > 1 then n.(ring := Without(n.ring, k))
    else if n.left.Nil? && n.right.Nil? then Nil
    else LiftLeaf(n)
  }
  ghost function LiftLeaf(n: Tree): Tree requires n.Node? {
    var f := RightLeaf(n);
    var rest := Put(n, f.size, Nil);
    if rest.Node? then Node(f.ring, f.size, rest.left, rest.right) else Nil
  }
  lemma LiftLeafTrie(n: Tree, lo: int, w: int)
    requires n.Node? && (n.left.Node? || n.right.Node?) && Trie(n, lo, w)
    ensures Trie(LiftLeaf(n), lo, w)
    ensures Sizes(LiftLeaf(n)) <= Sizes(n)
  {
    TrieUniq(n, lo, w); RightLeafIs(n);
    var f := RightLeaf(n);
    PutNilSizes(n, f.size);
    TrieRange(n, lo, w);
    PutTrie(n, f.size, Nil, lo, w);
  }
  lemma LiftLeafMembers(n: Tree)
    requires n.Node? && (n.left.Node? || n.right.Node?) && Uniq(n) && Proper(n) && |n.ring| == 1
    ensures forall y :: y in Members(LiftLeaf(n)) <==> y in Members(n) && y != n.ring[0]
    ensures Proper(LiftLeaf(n))
  {
    RightLeafIs(n);
    var f := RightLeaf(n);
    var rest := Put(n, f.size, Nil);
    OthersApart(n, f.size);
    PutMembers(n, f.size, Nil);
    PutNilProper(n, f.size);
    SubProper(n, f.size);
    assert LiftLeaf(n) == Node(f.ring, f.size, rest.left, rest.right);
    assert forall y :: y in Members(f) <==> y in f.ring;
    SubSizes(n, f.size);
    assert forall y :: y in Members(rest) <==> y in Members(n) && y !in f.ring;
    Regraft(f.ring, f.size, rest);
    RootIn(rest);
    assert rest.ring == n.ring && n.ring[0] in Members(rest);
    forall y ensures y in Members(LiftLeaf(n)) <==> y in Members(n) && y != n.ring[0] {
      assert y in f.ring <==> y in Members(f);
      assert y in Members(f) ==> y in Members(n);
    }
  }
  lemma MembersOf(t: Tree, x: int)
    requires t.Node?
    ensures x in Members(t) <==> x in t.ring || x in Members(t.left) || x in Members(t.right)
  {}
  lemma Regraft(ring: seq<int>, s: int, t: Tree)
    requires t.Node? && Proper(t) && |t.ring| == 1 && |ring| > 0 && forall x :: x in ring ==> x !in Members(t)
    ensures Proper(Node(ring, s, t.left, t.right))
    ensures forall y ::
              y in Members(Node(ring, s, t.left, t.right)) <==> y in ring || (y in Members(t) && y != t.ring[0])
  {
    hide Members;
    var n := Node(ring, s, t.left, t.right);
    forall y ensures y in Members(n) <==> y in ring || (y in Members(t) && y != t.ring[0]) {
      MembersOf(t, y); MembersOf(n, y);
    }
    forall x | x in ring ensures x !in Members(t.left) && x !in Members(t.right) { MembersOf(t, x); }
  }
  lemma LiftLeafFits(n: Tree, C: Chunks)
    requires n.Node? && (n.left.Node? || n.right.Node?) && Uniq(n) && Fits(n, C)
    ensures Fits(LiftLeaf(n), C)
  {
    RightLeafIs(n);
    SubFits(n, RightLeaf(n).size, C);
    PutFits(n, RightLeaf(n).size, Nil, C);
  }
}
