/** Bytes, and 32-bit words in little-endian order. */
module Bytes {
  const TWO32 := 0x1_0000_0000
  newtype byte = x: int | 0 <= x < 256

  function Dword(b: seq<byte>, i: nat): (u: int)
    requires i + 4 <= |b|
    ensures 0 <= u < TWO32
  {
    b[i] as int + 256 * b[i + 1] as int + 65536 * b[i + 2] as int + 16777216 * b[i + 3] as int
  }
  function DwordBytes(u: int): (b: seq<byte>)
    requires 0 <= u < TWO32
    ensures |b| == 4
  {
    [(u % 256) as byte, (u / 256 % 256) as byte, (u / 65536 % 256) as byte, (u / 16777216) as byte]
  }
  lemma DwordBack(u: int)
    requires 0 <= u < TWO32
    ensures Dword(DwordBytes(u), 0) == u
  {
    assert u / 65536 == u / 256 / 256 && u / 16777216 == u / 65536 / 256;
  }
  lemma BytesBack(b: seq<byte>)
    requires |b| == 4
    ensures DwordBytes(Dword(b, 0)) == b
  {
    var c := DwordBytes(Dword(b, 0));
    DwordBack(Dword(b, 0));
    DwordTells(c, 0, b, 0);
  }
  ghost predicate SameFour(b: seq<byte>, i: nat, c: seq<byte>, j: nat) requires i + 4 <= |b| && j + 4 <= |c| {
    b[i] == c[j] && b[i + 1] == c[j + 1] && b[i + 2] == c[j + 2] && b[i + 3] == c[j + 3]
  }
  // the word tells its bytes
  lemma DwordTells(b: seq<byte>, i: nat, c: seq<byte>, j: nat)
    requires i + 4 <= |b| && j + 4 <= |c|
    ensures Dword(b, i) == Dword(c, j) <==> SameFour(b, i, c, j)
  {
    if Dword(b, i) == Dword(c, j) {
      FourDigits(b[i] as int, b[i + 1] as int, b[i + 2] as int, b[i + 3] as int, c[j] as int, c[j + 1] as int,
        c[j + 2] as int, c[j + 3] as int);
    }
  }
  lemma FourDigits(a0: int, a1: int, a2: int, a3: int, b0: int, b1: int, b2: int, b3: int)
    requires 0 <= a0 < 256 && 0 <= a1 < 256 && 0 <= a2 < 256 && 0 <= a3 < 256 && 0 <= b0 < 256 && 0 <= b1 < 256
      && 0 <= b2 < 256 && 0 <= b3 < 256
    requires a0 + 256 * a1 + 65536 * a2 + 16777216 * a3 == b0 + 256 * b1 + 65536 * b2 + 16777216 * b3
    ensures a0 == b0 && a1 == b1 && a2 == b2 && a3 == b3
  {
    assert a3 == b3;
    assert a2 == b2;
  }
}
