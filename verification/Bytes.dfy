/** Byte strings, positioned writes and little-endian integers: the common
    ground of the on-disk footer and of the sync wire format. */
module Bytes {

  type Byte = b: int | 0 <= b < 256

  datatype Option<+T> = None | Some(value: T)

  const U32: int := 0x1_0000_0000
  const U64: int := 0x1_0000_0000_0000_0000

  /** `d` after writing `data` at offset `off`, as a seek followed by a write does. */
  function WriteAt(d: seq<Byte>, off: nat, data: seq<Byte>): (r: seq<Byte>)
    requires off + |data| <= |d|
    ensures |r| == |d|
    ensures forall i :: 0 <= i < |d| ==>
      r[i] == if off <= i < off + |data| then data[i - off] else d[i]
  {
    d[..off] + data + d[off + |data|..]
  }

  /** What was written is what a later read of the same range returns. */
  lemma ReadBack(d: seq<Byte>, off: nat, data: seq<Byte>)
    requires off + |data| <= |d|
    ensures WriteAt(d, off, data)[off..off + |data|] == data
  {
  }

  /** A write leaves every range disjoint from it as it was. */
  lemma ReadElsewhere(d: seq<Byte>, off: nat, data: seq<Byte>, lo: nat, hi: nat)
    requires off + |data| <= |d| && lo <= hi <= |d|
    requires hi <= off || off + |data| <= lo
    ensures WriteAt(d, off, data)[lo..hi] == d[lo..hi]
  {
  }

  function Pow256(w: nat): (r: nat)
    ensures r > 0
  {
    if w == 0 then 1 else 256 * Pow256(w - 1)
  }

  /** The `w` low-order bytes of `n`, least significant first. */
  function Le(n: nat, w: nat): (r: seq<Byte>)
    ensures |r| == w
    decreases w
  {
    if w == 0 then [] else [n % 256] + Le(n / 256, w - 1)
  }

  /** Byte `i` of a word is its digit of weight 256^i. */
  lemma {:induction false} LeAt(n: nat, w: nat, i: nat)
    requires i < w
    ensures Le(n, w)[i] == n / Pow256(i) % 256
    decreases w
  {
    if i > 0 {
      LeAt(n / 256, w - 1, i - 1);
      DivTwice(n, Pow256(i - 1));
    }
  }

  lemma DivTwice(n: nat, p: nat)
    requires p > 0
    ensures n / 256 / p == n / (256 * p)
  {
    var q, a := n / 256, n % 256;
    var k, b := q / p, q % p;
    assert n == 256 * (k * p + b) + a == k * (256 * p) + (256 * b + a);
    assert 256 * b + a < 256 * p;
    QuotientIs(n, 256 * p, k, 256 * b + a);
  }

  lemma QuotientIs(n: nat, d: nat, k: nat, r: nat)
    requires r < d && n == k * d + r
    ensures n / d == k
  {
    MultipleAbove(n / d, k, d);
    MultipleAbove(k, n / d, d);
  }

  lemma {:induction false} MultipleAbove(j: nat, k: nat, d: nat)
    ensures j < k ==> j * d + d <= k * d
    decreases k
  {
    if j < k {
      MultipleAbove(j, k - 1, d);
      assert k * d == (k - 1) * d + d;
    }
  }

  function UnLe(s: seq<Byte>): nat {
    if s == [] then 0 else s[0] + 256 * UnLe(s[1..])
  }

  /** An integer that fits survives encoding. */
  lemma {:induction false} LeRoundTrip(n: nat, w: nat)
    requires n < Pow256(w)
    ensures UnLe(Le(n, w)) == n
    decreases w
  {
    if w > 0 {
      LeRoundTrip(n / 256, w - 1);
      assert Le(n, w)[1..] == Le(n / 256, w - 1);
    }
  }

  lemma {:induction false} UnLeBound(s: seq<Byte>)
    ensures UnLe(s) < Pow256(|s|)
    decreases |s|
  {
    if s != [] {
      UnLeBound(s[1..]);
    }
  }

  lemma Pow256Values()
    ensures Pow256(2) == 0x1_0000 && Pow256(4) == U32 && Pow256(8) == U64
  {
    assert Pow256(3) == 0x100_0000;
    assert Pow256(5) == 256 * U32;
    assert Pow256(6) == 256 * (256 * U32);
    assert Pow256(7) == 256 * (256 * (256 * U32));
  }

  /** The C string in a buffer: everything in front of the first NUL. */
  function CString(s: seq<Byte>): (r: seq<Byte>)
    ensures 0 !in r && r <= s
    decreases |s|
  {
    if s == [] || s[0] == 0 then [] else [s[0]] + CString(s[1..])
  }

  lemma {:induction false} CStringWhole(s: seq<Byte>)
    requires 0 !in s
    ensures CString(s) == s
    decreases |s|
  {
    if s != [] {
      CStringWhole(s[1..]);
    }
  }

  /** It ends at the first NUL, whatever lies behind. */
  lemma {:induction false} CStringStops(s: seq<Byte>, t: seq<Byte>)
    ensures CString(s + [0] + t) == CString(s)
    decreases |s|
  {
    var u := s + [0] + t;
    if s != [] {
      CStringStops(s[1..], t);
      assert u[1..] == s[1..] + [0] + t;
    }
  }
}
