/** Memory as a map of 32-bit words, and circular lists threaded through it. */
module Words {
  type word = x: int | 0 <= x < 0x1_0000_0000
  type Mem = map<int, int>
  function Fld(m: Mem, p: int, o: int): int { if p + o in m then m[p + o] else 0 }

  const FD := 8
  const BK := 12

  // a ring is listed against its fd links: bk leads to the next element, fd to the previous one
  ghost function Nxt(r: seq<int>, k: int): int requires 0 <= k < |r| { if k + 1 < |r| then r[k+1] else r[0] }
  ghost function Prv(r: seq<int>, k: int): int requires 0 <= k < |r| { if k > 0 then r[k-1] else r[|r|-1] }
  ghost predicate Distinct(r: seq<int>) { forall i, j :: 0 <= i < j < |r| ==> r[i] != r[j] }

  ghost predicate Ring(m: Mem, r: seq<int>) {
    && |r| > 0
    && Distinct(r)
    && (forall k :: 0 <= k < |r| ==> Fld(m, r[k], BK) == Nxt(r, k))
    && (forall k :: 0 <= k < |r| ==> Fld(m, r[k], FD) == Prv(r, k))
  }

  lemma RingInsert(m: Mem, r: seq<int>, p: int, m': Mem)
    requires Ring(m, r) && p !in r
    requires forall x :: x in r && x != r[0] ==> Fld(m', x, FD) == Fld(m, x, FD)
    requires forall x :: x in r && x != Prv(r, 0) ==> Fld(m', x, BK) == Fld(m, x, BK)
    requires Fld(m', r[0], FD) == p
    requires Fld(m', Prv(r, 0), BK) == p
    requires Fld(m', p, FD) == Prv(r, 0) && Fld(m', p, BK) == r[0]
    ensures Ring(m', r + [p])
  {
  }
  lemma RingDropLast(m: Mem, r: seq<int>, m': Mem)
    requires Ring(m, r) && |r| > 1
    requires forall i :: 0 < i < |r| - 1 ==> Fld(m', r[i], FD) == Fld(m, r[i], FD)
    requires forall i :: 0 <= i < |r| - 2 ==> Fld(m', r[i], BK) == Fld(m, r[i], BK)
    requires Fld(m', r[0], FD) == r[|r|-2] && Fld(m', r[|r|-2], BK) == r[0]
    ensures Ring(m', r[..|r|-1])
  {
    var r' := r[..|r|-1];
    assert Distinct(r');
    forall i | 0 <= i < |r'| ensures Fld(m', r'[i], FD) == Prv(r', i) && Fld(m', r'[i], BK) == Nxt(r', i) {
      assert r'[i] == r[i];
    }
  }
  lemma RingRotateBy(m: Mem, r: seq<int>, n: nat)
    requires Ring(m, r) && n <= |r|
    ensures Ring(m, r[n..] + r[..n])
  {
    var r' := r[n..] + r[..n];
    RotateDistinct(r, n);
    forall i | 0 <= i < |r'| ensures Fld(m, r'[i], FD) == Prv(r', i) && Fld(m, r'[i], BK) == Nxt(r', i) {
      RotateAt(r, n, i);
    }
  }
  lemma RotateDistinct(r: seq<int>, n: nat)
    requires n <= |r| && Distinct(r)
    ensures Distinct(r[n..] + r[..n])
  {}
  lemma RotateAt(r: seq<int>, n: nat, i: nat)
    requires n <= |r| && i < |r|
    ensures var r', j := r[n..] + r[..n], if i + n < |r| then i + n else i + n - |r|;
            r'[i] == r[j] && Prv(r', i) == Prv(r, j) && Nxt(r', i) == Nxt(r, j)
  {}
  ghost function Without(r: seq<int>, k: int): seq<int> requires 0 <= k < |r| { r[..k] + r[k+1..] }
  lemma Around(r: seq<int>, k: nat)
    requires k < |r|
    ensures (r[k+1..] + r[..k+1])[..|r| - 1] == r[k+1..] + r[..k]
  {
    assert (r[k+1..] + r[..k+1])[..|r| - 1] == r[k+1..] + r[..k+1][..k];
  }
  lemma RingRemove(m: Mem, r: seq<int>, k: int, m': Mem)
    requires Ring(m, r) && 0 <= k < |r| && |r| > 1
    requires forall x :: x in r ==> Fld(m', x, FD) == if x == Nxt(r, k) then Prv(r, k) else Fld(m, x, FD)
    requires forall x :: x in r ==> Fld(m', x, BK) == if x == Prv(r, k) then Nxt(r, k) else Fld(m, x, BK)
    ensures Ring(m', Without(r, k))
  {
    var q := r[k+1..] + r[..k+1];
    RingRotateBy(m, r, k + 1);
    assert q[|q|-1] == r[k] && q[0] == Nxt(r, k) && q[|q|-2] == Prv(r, k);
    assert forall i :: 0 <= i < |q| ==> q[i] in r;
    RingDropLast(m, q, m');
    var q' := q[..|q|-1];
    Around(r, k);
    RingRotateBy(m', q', |r| - k - 1);
    assert q'[|r|-k-1..] == r[..k] && q'[..|r|-k-1] == r[k+1..];
  }
  lemma RingFrame(m: Mem, r: seq<int>, m': Mem)
    requires Ring(m, r)
    requires forall x :: x in r ==> Fld(m', x, FD) == Fld(m, x, FD) && Fld(m', x, BK) == Fld(m, x, BK)
    ensures Ring(m', r)
  {}
  ghost function Pos(r: seq<int>, x: int): (k: int)
    requires x in r
    ensures 0 <= k < |r| && r[k] == x
  {
    var k :| 0 <= k < |r| && r[k] == x; k
  }
  ghost function Minus(r: seq<int>, x: int): seq<int> requires x in r { Without(r, Pos(r, x)) }
  lemma MinusIs(r: seq<int>, x: int)
    requires Distinct(r) && x in r
    ensures forall y :: y in Minus(r, x) <==> y in r && y != x
  {
    WithoutIs(r, Pos(r, x));
  }
  lemma WithoutIs(r: seq<int>, k: int)
    requires 0 <= k < |r| && Distinct(r)
    ensures forall y :: y in Without(r, k) <==> y in r && y != r[k]
  {
    forall y ensures y in Without(r, k) <==> y in r && y != r[k] {
      if y in r && y != r[k] {
        var j :| 0 <= j < |r| && r[j] == y;
        assert Without(r, k)[if j < k then j else j - 1] == y;
      }
    }
  }
  // an element's neighbours coincide exactly when there is one other element
  lemma RingPair(m: Mem, r: seq<int>, k: int)
    requires Ring(m, r) && 0 <= k < |r| && |r| > 1
    ensures Fld(m, r[k], FD) == Prv(r, k) && Fld(m, r[k], BK) == Nxt(r, k)
    ensures Prv(r, k) != r[k] && Nxt(r, k) != r[k] && Prv(r, k) in r && Nxt(r, k) in r
    ensures Prv(r, k) == Nxt(r, k) <==> |r| == 2
  {}
}
