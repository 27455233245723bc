/** The consistency checks of the source, do_check_* and traverse_and_check (kernel/malloc.c:2461-2722): on a valid heap
    none of their assertions fails. */
module Checks {
  import opened Words
  import opened Chunks
  import opened Bits
  import opened TreeIndexing
  import opened Tries
  import opened Bins
  import opened TreeCuts
  import opened TrieBits
  import opened Mspaces
  import opened Retagging
  import opened BinAccess
  import opened Heap
  import opened ChunkChecks
  import opened BestFit
  import opened Choices
  import SmallBinMacros
  import TreeInsertMacro
  import TreeUnlinkMacro
  import TreeRemoval

  // ---- bin_find ----

  lemma SmallWalk(s: St, i: int, r: seq<int>, k: nat)
    requires SoundSt(s) && 0 <= i < 32 && s.B.small[i] != [] && r == [SmallbinAt(s.base, i)] + s.B.small[i] && k < |r|
    ensures IsAddr(r[k], FD, s.base, s.end) && Fld(s.mem, r[k], FD) == Prv(r, k)
      && (Prv(r, k) == r[0] <==> k == 1 || |r| == 1)
  {
    SmallBinMacros.BinAt(s, i);
    SmallBinMacros.ElemAddr(s, r[k], i);
  }
  method FindSmall(m: Mspace, x: int, i: int) returns (found: bool)
    requires m.Sound() && 0 <= i < 32 && Marked(m.smallmap, i) && x != SmallbinAt(m.base, i)
    ensures found <==> x in m.B.small[i]
  {
    ghost var s := m.S();
    BinMark(s, i);
    var b := SmallbinAt(m.base, i);
    ghost var r := [b] + m.B.small[i];
    var p := b;
    ghost var k := |r|;
    found := false;
    while true
      invariant 0 < k <= |r| && p == (if k == |r| then b else r[k]) && forall j :: k < j < |r| ==> r[j] != x
      decreases k
    {
      if p == x { assert x == r[k]; assert x == m.B.small[i][k - 1]; return true; }
      ghost var at := if k == |r| then 0 else k;
      SmallWalk(s, i, r, at);
      p := m.Get(p, FD);
      if p == b {
        assert forall j :: 0 <= j < |m.B.small[i]| ==> m.B.small[i][j] == r[j + 1];
        return false;
      }
      k := k - 1;
    }
  }

  // the descent for a size, as long as there are nodes: the size is in the tree exactly if it is under cur
  ghost predicate Sought(s: St, i: int, z: int, cur: Tree, lo: int, e: nat, k: int) {
    && SoundSt(s) && 0 <= i < 32 && (cur.Node? ==> At(s.B.tree[i], cur))
    && Trie(cur, lo, Pow2(e)) && Holds(k, z - lo, e) && (z in Sizes(s.B.tree[i]) <==> z in Sizes(cur))
  }
  lemma SeekStart(s: St, i: int, z: int)
    requires SoundSt(s) && 0x100 <= z < W32 && i == TreeIndex(z) && i < 32
    ensures Sought(s, i, z, s.B.tree[i], Lo(i), SpanBits(i), SizeBits(z, i))
  {
    TreeInsertMacro.BinAt(s, i);
    TreeIndexOK(z); MinSizeStep(i);
    SpanIs(i); SizeBitsHold(z, i);
    if s.B.tree[i].Node? { TreeUnlinkMacro.SubSelf(s.B.tree[i]); }
  }
  lemma SeekStep(s: St, i: int, z: int, cur: Tree, lo: int, e: nat, k: int, d: bool, k': int)
    requires Sought(s, i, z, cur, lo, e, k) && cur.Node? && cur.size != z && d == SignBit(k) && k' == ShiftLeft(k)
    ensures e > 0 && Sought(s, i, z, Kid(cur, d), if d then lo + Pow2(e - 1) else lo, e - 1, k')
  {
    hide SoundSt, Holds, SignBit, ShiftLeft, Uniq;
    DescendOn(k, z, lo, cur.size, e, d, k');
    TreeInsertMacro.BinUniq(s, i);
    if Kid(cur, d).Node? { TreeUnlinkMacro.KidAt(s.B.tree[i], cur, d); }
    SeekSides(cur, lo, Pow2(e - 1), z, d);
  }
  lemma SeekSides(cur: Tree, lo: int, h: int, z: int, d: bool)
    requires cur.Node? && Trie(cur, lo, 2 * h) && h > 0 && cur.size != z && (d <==> z >= lo + h)
    ensures z in Sizes(cur) <==> z in Sizes(Kid(cur, d))
    ensures Trie(Kid(cur, d), if d then lo + h else lo, h)
  {
    TrieRange(cur.left, lo, h); TrieRange(cur.right, lo + h, h);
  }
  lemma RingHas(s: St, i: int, n: Tree, x: int)
    requires SoundSt(s) && 0 <= i < 32 && At(s.B.tree[i], n) && (x in s.C ==> s.C[x].size == n.size)
    ensures x in n.ring <==> x in Members(s.B.tree[i])
  {
    TreeInsertMacro.BinAt(s, i);
    TrieUniq(s.B.tree[i], Lo(i), Span(i));
    SubSizes(s.B.tree[i], n.size);
    assert x in n.ring ==> x in Members(n);
    if x in Members(s.B.tree[i]) {
      var n', k := TreeRemoval.Find(s.B.tree[i], s.C, x);
    }
  }
  method FindLarge(m: Mspace, x: int, z: int, i: int) returns (found: bool)
    requires m.Sound() && (x in m.C ==> m.C[x].size == z) && 0x100 <= z < W32 && i == TreeIndex(z) && i < 32
    ensures found <==> x in Members(m.B.tree[i])
  {
    hide Shape, Tags, SignBit, ShiftLeft, SizeBits, Mspace.Rep;
    ghost var s := m.S();
    SeekStart(s, i, z); BinRoot(s, i);
    var t := m.Get(TreebinAt(m.base, i), 0);
    var sizebits := SizeBits(z, i);
    ghost var cur, lo, e: nat := s.B.tree[i], Lo(i), SpanBits(i);
    if cur.Node? { ReadSize(s, i, cur); }
    while t != 0 && ChunkSize(m.Get(t, HEAD)) != z
      invariant Sought(s, i, z, cur, lo, e, sizebits) && (t == 0 <==> cur.Nil?)
        && (cur.Node? ==> t == Root(cur) && ReadsSize(s, t, cur.size))
      decreases e
    {
      TreeUnlinkMacro.CurWords(s, i, cur);
      SeekStep(s, i, z, cur, lo, e, sizebits, SignBit(sizebits), ShiftLeft(sizebits));
      ghost var d := SignBit(sizebits);
      t := m.Get(t, if SignBit(sizebits) then CHILD1 else CHILD0);
      sizebits := ShiftLeft(sizebits);
      cur, lo, e := Kid(cur, d), if d then lo + Pow2(e - 1) else lo, e - 1;
      if cur.Node? { ReadSize(s, i, cur); }
    }
    if t != 0 {
      RingHas(s, i, cur, x);
      found := FindInRing(m, x, t, i, cur);
    } else {
      NotHere(s, i, x, z);
      found := false;
    }
  }
  ghost predicate ReadsSize(s: St, t: int, z: int) {
    NodeAddr(t, s.base, s.end) && IsAddr(t, HEAD, s.base, s.end) && ChunkSize(Fld(s.mem, t, HEAD)) == z
  }
  lemma ReadSize(s: St, i: int, cur: Tree)
    requires SoundSt(s) && 0 <= i < 32 && At(s.B.tree[i], cur)
    ensures ReadsSize(s, Root(cur), cur.size)
  {
    TreeUnlinkMacro.CurWords(s, i, cur);
    TreeInsertMacro.ReadNode(s, i, cur);
    assert IsAddr(Root(cur), HEAD, s.base, s.end);
  }
  lemma NotHere(s: St, i: int, x: int, z: int)
    requires SoundSt(s) && 0 <= i < 32 && (x in s.C ==> s.C[x].size == z) && z !in Sizes(s.B.tree[i])
    ensures x !in Members(s.B.tree[i])
  {
    TreeInsertMacro.BinAt(s, i);
    if x in Members(s.B.tree[i]) { FitsMember(s.B.tree[i], s.C, x); }
  }
  // the walk round a ring, from one chunk back to it, in search of x
  method FindInRing(m: Mspace, x: int, t: int, ghost i: int, ghost n: Tree) returns (found: bool)
    requires m.Sound() && 0 <= i < 32 && At(m.B.tree[i], n) && t == Root(n)
    ensures found <==> x in n.ring
  {
    ghost var s := m.S();
    TreeUnlinkMacro.CurWords(s, i, n);
    var u := t;
    ghost var k := |n.ring|;
    while true
      invariant 0 < k <= |n.ring| && u == (if k == |n.ring| then t else n.ring[k])
        && forall j :: k < j < |n.ring| ==> n.ring[j] != x
      invariant k < |n.ring| ==> n.ring[0] != x
      decreases k
    {
      ghost var at := if k == |n.ring| then 0 else k;
      if u == x { assert n.ring[at] == x; return true; }
      TreeUnlinkMacro.NodeWords(s, i, n, at, u);
      RingEnd(s, i, n, at);
      u := m.Get(u, FD);
      if u == t { return false; }
      k := k - 1;
    }
  }
  lemma RingEnd(s: St, i: int, n: Tree, k: int)
    requires SoundSt(s) && 0 <= i < 32 && At(s.B.tree[i], n) && 0 <= k < |n.ring|
    ensures Prv(n.ring, k) == n.ring[0] <==> k == 1 || |n.ring| == 1
  {
    TreeUnlinkMacro.UnlinkedCase(s, i, n, k, n.ring[k]);
    NodePlace(s.mem, s.B.tree[i], TreebinAt(s.base, i), i, n);
  }

  // whether a chunk is in the bin of its size
  method BinFind(m: Mspace, x: int) returns (found: bool)
    requires m.Sound() && (x in m.C || x == m.top)
    ensures found <==> Listed(m.B, x)
  {
    ghost var s := m.S();
    FindPlace(s, x);
    var size := ChunkSize(m.Get(x, HEAD));
    found := false;
    if IsSmall(size) {
      var sidx := size / 8;
      BinMark(s, sidx);
      if Marked(m.smallmap, sidx) {
        found := FindSmall(m, x, sidx);
      }
    } else {
      var tidx := TreeIndex(size);
      TreeIndexOK(size); BinRoot(s, tidx);
      if Marked(m.treemap, tidx) {
        found := FindLarge(m, x, size, tidx);
      }
    }
  }
  // the size of a chunk or top, and the one bin that could list it
  lemma FindPlace(s: St, x: int)
    requires SoundSt(s) && (x in s.C || x == s.top)
    ensures IsAddr(x, HEAD, s.base, s.end)
    ensures forall i {:trigger SmallbinAt(s.base, i)} :: 0 <= i < 32 ==> x != SmallbinAt(s.base, i)
    ensures var size := ChunkSize(Fld(s.mem, x, HEAD));
            0 <= size < W32 && (x in s.C ==> size == s.C[x].size) && InItsBin(s, x, size)
  {
    assert ChunkOK(s.C, s.base, s.base, s.top);
    assert Sep(s.C, s.base, x) && ChunkOK(s.C, x, s.base, s.top);
    TopEdge(s);
    if x in s.C { HeadIs(s, x); } else { TopAddr(s, 0); TopSize(s.topsize); }
    ItsBin(s, x, ChunkSize(Fld(s.mem, x, HEAD)));
  }
  ghost predicate InItsBin(s: St, x: int, size: int) {
    && |s.B.small| == 32 && |s.B.tree| == 32
    && (0 <= size && IsSmall(size) ==> 0 <= size / 8 < 32 && (Listed(s.B, x) <==> x in s.B.small[size / 8]))
    && (0 <= size && !IsSmall(size)
        ==> TreeIndex(size) < 32 && (Listed(s.B, x) <==> x in Members(s.B.tree[TreeIndex(size)])))
  }
  lemma ItsBin(s: St, x: int, size: int)
    requires SoundSt(s) && 0 <= size < W32 && (x in s.C ==> s.C[x].size == size)
    ensures InItsBin(s, x, size)
  {
    var b := if IsSmall(size) then size / 8 else 32 + TreeIndex(size);
    if !IsSmall(size) { TreeIndexOK(size); }
    TreeInsertMacro.BinAt(s, 0);
    if Listed(s.B, x) {
      ListedHome(s.mem, s.C, s.base, s.top, s.smallmap, s.treemap, s.B, x);
      BinRange(s, x);
    }
    assert InOne(s.B, b, x) ==> Listed(s.B, x);
  }

  // ---- all chunks ----

  // The sizes of all chunks, with top and its foot, add up to the whole region.
  method TraverseAndCheck(m: Mspace) returns (sum: int)
    requires Valid(m)
    ensures sum == m.capacity
  {
    ghost var s := m.S();
    TopEdge(s);
    assert ChunkOK(s.C, s.base, s.base, s.top);
    HeadIs(s, s.base);
    sum := m.topsize + TOP_FOOT_SIZE;
    var q := m.base;
    var lastq := 0;
    assert Pinuse(m.Get(q, HEAD));
    while m.base <= q < m.base + m.capacity && q != m.top && m.Get(q, HEAD) != 7
      invariant q == m.top || q in m.C
      invariant m.base <= q <= m.top && IsAddr(q, HEAD, m.base, m.base + m.capacity) && Fld(m.mem, q, HEAD) != 7
      invariant sum == m.topsize + TOP_FOOT_SIZE + (q - m.base)
      invariant lastq != 0 ==> lastq in m.C && lastq + m.C[lastq].size == q
      decreases m.top - q
    {
      HeadIs(s, q); NextOf(s, q);
      assert ChunkOK(s.C, q, s.base, s.top);
      var head := m.Get(q, HEAD);
      sum := sum + ChunkSize(head);
      var found := BinFind(m, q);
      if Cinuse(head) {
        UsedUnlisted(s, q);
        assert !found;
        CheckInuseChunk(m, q);
      } else {
        FreeAbove(s, q);
        assert q == m.dv || found;
        if lastq != 0 { HeadIs(s, lastq); NextOf(s, lastq); assert ChunkOK(s.C, lastq, s.base, s.top); }
        assert lastq == 0 || Cinuse(m.Get(lastq, HEAD));
        CheckFreeChunk(m, q);
      }
      lastq := q;
      q := q + ChunkSize(head);
      NoFence(s, q);
    }
  }
  lemma UsedUnlisted(s: St, q: int)
    requires SoundSt(s) && q in s.C && s.C[q].used
    ensures !Listed(s.B, q)
  {
    if Listed(s.B, q) { ListedFacts(s, q); }
  }
  // no head word is that of a fence post
  lemma NoFence(s: St, q: int)
    requires SoundSt(s) && (q == s.top || q in s.C)
    ensures Fld(s.mem, q, HEAD) != 7
  {
    if q in s.C { assert ChunkOK(s.C, q, s.base, s.top) && TagOK(s.mem, s.C, q); }
  }

  // ---- the bins ----

  // what is read of the k-th chunk of a node's ring
  lemma RingChunk(s: St, i: int, n: Tree, k: int, u: int)
    requires TreeUnlinkMacro.InNodeAt(s, i, n, k, u)
    ensures u in s.C && !s.C[u].used && s.C[u].size == n.size && n.size >= 0x100 && TreeIndex(n.size) == i
      && n.size < W32
    ensures MinSize(i) <= n.size && (i == 31 || n.size < MinSize(i + 1))
    ensures NodeAddr(u, s.base, s.end) && IsAddr(u, HEAD, s.base, s.end) && ChunkSize(Fld(s.mem, u, HEAD)) == n.size
      && Fld(s.mem, u, INDEX) == i
    ensures Linked2(s, u) && Fld(s.mem, u, FD) == Prv(n.ring, k)
    ensures if k == 0
            then Fld(s.mem, u, PARENT) != 0
            else Fld(s.mem, u, PARENT) == 0 && Fld(s.mem, u, CHILD0) == 0 && Fld(s.mem, u, CHILD1) == 0
  {
    TreeUnlinkMacro.NodeWords(s, i, n, k, u);
    NodeLinks(s, i, n, k, u);
    TreeUnlinkMacro.UnlinkedCase(s, i, n, k, u);
    TreeInsertMacro.BinAt(s, i);
    SubFits(s.B.tree[i], n.size, s.C);
    SubInTree(s.mem, s.B.tree[i], n.size, TreebinAt(s.base, i), (0, 0), i);
    assert Free(s.C, u, n.size);
    HeadIs(s, u);
    HasBin(s, i, n.size); TreeIndexOK(n.size);
    NodePlace(s.mem, s.B.tree[i], TreebinAt(s.base, i), i, n);
    assert IsAddr(u, CHILD0, s.base, s.end);
  }
  // the parent points back, and it is not the node itself
  lemma ParentLinks(s: St, i: int, n: Tree, u: int)
    requires TreeUnlinkMacro.InNodeAt(s, i, n, 0, u)
    ensures var p := Fld(s.mem, u, PARENT);
      && p != u && IsAddr(p, CHILD0, s.base, s.end) && IsAddr(p, CHILD1, s.base, s.end)
      && (Fld(s.mem, p, CHILD0) == u || Fld(s.mem, p, CHILD1) == u
        || (IsAddr(p, 0, s.base, s.end) && Fld(s.mem, p, 0) == u))
  {
    TreeUnlinkMacro.NodeWords(s, i, n, 0, u); TreeUnlinkMacro.SlotChoice(s, i, n, u);
      TreeUnlinkMacro.UnlinkedCase(s, i, n, 0, u);
    var t, h := s.B.tree[i], TreebinAt(s.base, i);
    var p := Fld(s.mem, u, PARENT);
    SlotPlace(s.mem, t, h, i, n);
    NodePlace(s.mem, t, h, i, n);
    if n.size == t.size {
      HeaderKids(s, i);
      TreeInsertMacro.MemberAddr(s, i, u);
    } else {
      SlotIn(t, n.size, (h, 0)); SubInTree(s.mem, t, n.size, h, (h, 0), i);
      assert u in n.ring && u in Members(n);
      assert IsAddr(p, CHILD0, s.base, s.end) && IsAddr(p, CHILD1, s.base, s.end);
    }
  }
  lemma HeaderKids(s: St, i: int)
    requires SoundSt(s) && 0 <= i < 32
    ensures var h := TreebinAt(s.base, i);
            IsAddr(h, 0, s.base, s.end) && IsAddr(h, CHILD0, s.base, s.end) && IsAddr(h, CHILD1, s.base, s.end)
            && h < s.base + HEADER
  {
    assert ChunkOK(s.C, s.base, s.base, s.top);
    Aligned(s.base, i); Multiple(s.base, 308 + 4 * i + 16); Multiple(s.base, 308 + 4 * i + 20);
    HeaderAddr(s, i);
  }
  // a child points back to the node
  lemma ChildLinks(s: St, i: int, n: Tree, d: bool)
    requires SoundSt(s) && 0 <= i < 32 && At(s.B.tree[i], n) && Kid(n, d).Node?
    ensures At(s.B.tree[i], Kid(n, d)) && |n.ring| > 0 && |Kid(n, d).ring| > 0
    ensures Fld(s.mem, Root(Kid(n, d)), PARENT) == Root(n) && Root(Kid(n, d)) != Root(n)
      && NodeAddr(Root(Kid(n, d)), s.base, s.end)
    ensures ReadsSize(s, Root(Kid(n, d)), Kid(n, d).size)
  {
    TreeInsertMacro.BinAt(s, i);
    TrieUniq(s.B.tree[i], Lo(i), Span(i));
    TreeUnlinkMacro.KidAt(s.B.tree[i], n, d);
    SubInTree(s.mem, s.B.tree[i], n.size, TreebinAt(s.base, i), (0, 0), i);
    TreeUnlinkMacro.CurWords(s, i, Kid(n, d)); TreeUnlinkMacro.CurWords(s, i, n);
    TreeUnlinkMacro.UnlinkedCase(s, i, n, 0, Root(n));
    NodePlace(s.mem, s.B.tree[i], TreebinAt(s.base, i), i, n);
    RootIn(Kid(n, d));
    ReadSize(s, i, Kid(n, d));
  }
  lemma KidsOrdered(s: St, i: int, n: Tree)
    requires SoundSt(s) && 0 <= i < 32 && At(s.B.tree[i], n) && n.left.Node? && n.right.Node?
    ensures n.left.size < n.right.size
  {
    var lo, w := TreeRange(s, i, n);
    TrieRange(n.left, lo, w / 2); TrieRange(n.right, lo + w / 2, w - w / 2);
    assert n.left.size in Sizes(n.left) && n.right.size in Sizes(n.right);
  }
  // do_check_tree
  method CheckTree(m: Mspace, t: int, ghost i: int, ghost n: Tree)
    requires Valid(m) && 0 <= i < 32 && At(m.B.tree[i], n) && t == Root(n)
    decreases n, 1
  {
    hide TreeIndex, MinSize, ChunkSize, Pinuse, Cinuse, SoundSt, Cover, DvOK;
    ghost var s := m.S();
    TreeUnlinkMacro.CurWords(s, i, n);
    RingChunk(s, i, n, 0, t);
    var tindex := m.Get(t, INDEX);
    var tsize := ChunkSize(m.Get(t, HEAD));
    var idx := TreeIndex(tsize);
    assert tindex == idx;
    assert tsize >= 0x100;
    assert tsize >= MinSize(idx);
    assert idx == 31 || tsize < MinSize(idx + 1);
    var head := 0;
    var u := t;
    ghost var k := |n.ring|;
    while true
      invariant 0 < k <= |n.ring| && u == (if k == |n.ring| then t else n.ring[k])
        && head == if k == |n.ring| then 0 else t
      decreases k
    {
      ghost var at := if k == |n.ring| then 0 else k;
      RingChunk(s, i, n, at, u); FreeAbove(s, u); NextOf(s, u); RingEnd(s, i, n, at); HeadIs(s, u);
      CheckTreeChunk(m, u, tindex, tsize);
      if m.Get(u, PARENT) == 0 {
        assert m.Get(u, CHILD0) == 0;
        assert m.Get(u, CHILD1) == 0;
      } else {
        assert head == 0;
        head := u;
        CheckTreeNode(m, u, i, n);
      }
      u := m.Get(u, FD);
      if u == t { break; }
      k := k - 1;
    }
    assert head != 0;
  }
  // what is asserted of every chunk of the ring
  method CheckTreeChunk(m: Mspace, u: int, tindex: int, tsize: int)
    requires Valid(m) && u in m.C && !m.C[u].used && m.C[u].size == tsize && NodeAddr(u, m.base, m.base + m.capacity)
      && Linked2(m.S(), u) && Fld(m.mem, u, INDEX) == tindex
  {
    ghost var s := m.S();
    HeadIs(s, u); NextOf(s, u); FreeAbove(s, u);
    assert IsAddr(u, INDEX, m.base, m.base + m.capacity);
    assert (u + 8) % 8 == 0 && u >= m.base;
    assert m.Get(u, INDEX) == tindex;
    assert ChunkSize(m.Get(u, HEAD)) == tsize;
    assert !Cinuse(m.Get(u, HEAD));
    assert !Pinuse(m.Get(u + tsize, HEAD));
    assert m.Get(m.Get(u, FD), BK) == u;
    assert m.Get(m.Get(u, BK), FD) == u;
  }
  // what is asserted of the chunk that is linked into the tree
  method CheckTreeNode(m: Mspace, u: int, ghost i: int, ghost n: Tree)
    requires Valid(m) && TreeUnlinkMacro.InNodeAt(m.S(), i, n, 0, u)
    decreases n, 0
  {
    ghost var s := m.S();
    TreeUnlinkMacro.NodeWords(s, i, n, 0, u); ParentLinks(s, i, n, u);
    var parent := m.Get(u, PARENT);
    assert parent != u;
    assert m.Get(parent, CHILD0) == u || m.Get(parent, CHILD1) == u || m.Get(parent, 0) == u;
    var c0, c1 := m.Get(u, CHILD0), m.Get(u, CHILD1);
    if c0 != 0 {
      ChildLinks(s, i, n, false);
      assert m.Get(c0, PARENT) == u;
      assert c0 != u;
      CheckTree(m, c0, i, n.left);
    }
    if c1 != 0 {
      ChildLinks(s, i, n, true);
      assert m.Get(c1, PARENT) == u;
      assert c1 != u;
      CheckTree(m, c1, i, n.right);
    }
    if c0 != 0 && c1 != 0 {
      KidsOrdered(s, i, n);
      assert ChunkSize(m.Get(c0, HEAD)) < ChunkSize(m.Get(c1, HEAD));
    }
  }
  // do_check_treebin
  method CheckTreebin(m: Mspace, i: int)
    requires Valid(m) && 0 <= i < 32
  {
    BinRoot(m.S(), i);
    var t := m.Get(TreebinAt(m.base, i), 0);
    var empty := !Marked(m.treemap, i);
    if t == 0 { assert empty; }
    if !empty {
      TreeUnlinkMacro.SubSelf(m.B.tree[i]);
      CheckTree(m, t, i, m.B.tree[i]);
    }
  }
  // do_check_smallbin
  lemma SmallNext(s: St, i: int, k: int)
    requires SoundSt(s) && 0 <= i < 32 && s.B.small[i] != []
    requires 0 <= k <= |s.B.small[i]|
    ensures var b := SmallbinAt(s.base, i); var r := [b] + s.B.small[i];
      && IsAddr(r[k], BK, s.base, s.end) && Fld(s.mem, r[k], BK) == (if k + 1 < |r| then r[k + 1] else b)
      && (k > 0 ==> r[k] == s.B.small[i][k - 1] && Free(s.C, r[k], 8 * i) && r[k] != b)
  {
    SmallBinMacros.BinAt(s, i);
    var r := [SmallbinAt(s.base, i)] + s.B.small[i];
    SmallBinMacros.ElemAddr(s, r[k], i);
    if k > 0 { assert r[k] == s.B.small[i][k - 1] && r[k] in s.B.small[i]; FreeAbove(s, r[k]); }
  }
  method CheckSmallbin(m: Mspace, i: int)
    requires Valid(m) && 0 <= i < 32
  {
    ghost var s := m.S();
    BinMark(s, i); HeaderAddr(s, i);
    var b := SmallbinAt(m.base, i);
    var p := m.Get(b, BK);
    var empty := !Marked(m.smallmap, i);
    if !empty { SmallNext(s, i, 0); SmallNext(s, i, 1); }
    if p == b { assert empty; }
    if !empty {
      ghost var r, k := [b] + m.B.small[i], 1;
      while p != b
        invariant 1 <= k <= |r| && p == (if k < |r| then r[k] else b)
        decreases |r| - k
      {
        SmallNext(s, i, k);
        if k + 1 < |r| { SmallNext(s, i, k + 1); HeadIs(s, r[k + 1]); }
        HeadIs(s, p); NextCinuse(s, p); NextOf(s, p);
        var size := ChunkSize(m.Get(p, HEAD));
        CheckFreeChunk(m, p);
        assert size / 8 == i;
        assert m.Get(p, BK) == b || ChunkSize(m.Get(m.Get(p, BK), HEAD)) == size;
        var q := p + size;
        NoFence(s, q);
        assert ChunkOK(s.C, p, s.base, s.top);
        CheckInuseChunk(m, q);
        p := m.Get(p, BK);
        k := k + 1;
      }
    }
  }
  // do_check_malloc_state: no assertion of it fails
  method CheckMallocState(m: Mspace) returns (total: int)
    requires Valid(m)
    ensures total == m.capacity
  {
    ghost var s := m.S();
    var i := 0;
    while i < 32
      invariant 0 <= i <= 32
    {
      CheckSmallbin(m, i);
      i := i + 1;
    }
    i := 0;
    while i < 32
      invariant 0 <= i <= 32
    {
      CheckTreebin(m, i);
      i := i + 1;
    }
    if m.dvsize != 0 {
      FreeAbove(s, m.dv); HeadIs(s, m.dv);
      assert (m.dv + 8) % 8 == 0 && m.dv >= m.base;
      assert m.dvsize == ChunkSize(m.Get(m.dv, HEAD));
      assert m.dvsize >= MIN_CHUNK_SIZE;
      var found := BinFind(m, m.dv);
      assert !found;
    }
    if m.top != 0 {
      CheckTopChunk(m);
      var found := BinFind(m, m.top);
      TopUnlisted(s);
      assert !found;
    }
    total := TraverseAndCheck(m);
    assert total <= m.capacity;
  }
  lemma TopUnlisted(s: St)
    requires SoundSt(s)
    ensures !Listed(s.B, s.top)
  {
    TopEdge(s);
    if Listed(s.B, s.top) { ListedFacts(s, s.top); }
  }
}
