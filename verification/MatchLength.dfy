// How far two runs of bytes agree: the 64-bit and the 32-bit word-at-a-time searches.

module MatchLength {
  import opened Bytes
  import opened BitScan

  // The two runs are sequences of their own, each of which ends where the search must stop reading:
  // `a` is the memory from s1 on, `b` the memory from s2 to its limit.

  /** n is the number of bytes in which a and b agree at their start. */
  ghost predicate IsMatchLength(a: seq<byte>, b: seq<byte>, n: nat)
    requires |a| == |b|
  {
    && n <= |a|
    && a[..n] == b[..n]
    && (n == |a| || a[n] != b[n])
  }

  /** The match length is the largest n for which the first n bytes agree. */
  lemma MatchLengthIsLargest(a: seq<byte>, b: seq<byte>, n: nat, m: nat)
    requires |a| == |b| && IsMatchLength(a, b, n)
    requires m <= |a| && a[..m] == b[..m]
    ensures m <= n
  {
    if n < m {
      assert a[..m][n] == b[..m][n];
    }
  }

  lemma AgreementGrows(a: seq<byte>, b: seq<byte>, n: nat, k: nat)
    requires n + k <= |a| == |b|
    requires a[..n] == b[..n] && a[n..n + k] == b[n..n + k]
    ensures a[..n + k] == b[..n + k]
  {
    assert a[..n + k] == a[..n] + a[n..n + k];
    assert b[..n + k] == b[..n] + b[n..n + k];
  }

  /** The first disagreement from p on is k bytes in. */
  ghost predicate DisagreeAfter(a: seq<byte>, b: seq<byte>, p: nat, k: nat)
    requires p + k < |a| == |b|
  {
    a[p..p + k] == b[p..p + k] && a[p + k] != b[p + k]
  }

  /** A disagreement seen in two slices is one in the whole. */
  lemma DisagreementInWhole(a: seq<byte>, b: seq<byte>, p: nat, u: seq<byte>, v: seq<byte>, k: nat)
    requires p + |u| <= |a| == |b| && u == a[p..p + |u|] && v == b[p..p + |u|]
    requires k < |u| && u[k] != v[k]
    requires forall i :: 0 <= i < k ==> u[i] == v[i]
    ensures DisagreeAfter(a, b, p, k)
  {
    assert u[..k] == v[..k];
    SliceOfSlice(a, p, p + |u|, 0, k);
    SliceOfSlice(b, p, p + |u|, 0, k);
  }

  lemma DisagreementInSlices(a: seq<byte>, b: seq<byte>, p: nat, width: nat)
    requires p + width <= |a| == |b|
    requires a[p..p + width] != b[p..p + width]
    ensures var x := Xor(LittleEndian(a[p..p + width]), LittleEndian(b[p..p + width]));
            && x > 0
            && TrailingZeros(x) / 8 < width
            && DisagreeAfter(a, b, p, TrailingZeros(x) / 8)
  {
    hide Xor, TrailingZeros, LittleEndian, FirstDifference, DisagreeAfter;
    var u, v := a[p..p + width], b[p..p + width];
    FirstDifferingByte(u, v);
    DisagreementInWhole(a, b, p, u, v, FirstDifference(u, v));
  }

  /** The number of bytes before the first difference between two 64-bit loads: the lowest set bit
      of their exclusive or, divided by eight. */
  method FirstDifference64(a: seq<byte>, b: seq<byte>, p: nat) returns (k: nat)
    requires p + 8 <= |a| == |b|
    requires Load64(a, p) != Load64(b, p)
    ensures k < 8 && DisagreeAfter(a, b, p, k)
  {
    DisagreementInSlices(a, b, p, 8);
    assert Xor(Load64(a, p), Load64(b, p)) < 0x1_0000_0000_0000_0000 by {
      LittleEndianBound(a[p..p + 8]);
      LittleEndianBound(b[p..p + 8]);
      WordSizes();
      XorBound(Load64(a, p), Load64(b, p), 64);
    }
    var x := Xor(Load64(a, p), Load64(b, p));
    var bits := FindLSBSetNonZero64(x);
    k := bits / 8;
  }

  /** The number of bytes before the first difference between two 32-bit loads: the lowest set bit
      of their exclusive or, divided by eight. */
  method FirstDifference32(a: seq<byte>, b: seq<byte>, p: nat) returns (k: nat)
    requires p + 4 <= |a| == |b|
    requires Load32(a, p) != Load32(b, p)
    ensures k < 4 && DisagreeAfter(a, b, p, k)
  {
    DisagreementInSlices(a, b, p, 4);
    assert Xor(Load32(a, p), Load32(b, p)) < 0x1_0000_0000 by {
      LittleEndianBound(a[p..p + 4]);
      LittleEndianBound(b[p..p + 4]);
      WordSizes();
      XorBound(Load32(a, p), Load32(b, p), 32);
    }
    var x := Xor(Load32(a, p), Load32(b, p));
    var bits := FindLSBSetNonZero(x);
    k := bits / 8;
  }

  lemma WordSizes()
    ensures Pow256(4) == Pow2(32) == 0x1_0000_0000
    ensures Pow256(8) == Pow2(64) == 0x1_0000_0000_0000_0000
  {
    Pow2Values();
    Pow2Add(32, 32);
    assert Pow256(4) == 0x1_0000_0000;
    assert Pow256(8) == 256 * Pow256(7) == 0x1_0000 * Pow256(6) == 0x100_0000 * Pow256(5);
  }

  /** An agreement followed by a disagreement is the match length. */
  lemma MatchEnds(a: seq<byte>, b: seq<byte>, n: nat, k: nat)
    requires n + k < |a| == |b|
    requires a[..n] == b[..n] && DisagreeAfter(a, b, n, k)
    ensures IsMatchLength(a, b, n + k)
  {
    AgreementGrows(a, b, n, k);
  }

  /** Equal words extend the agreement. */
  lemma WordAgrees(a: seq<byte>, b: seq<byte>, n: nat, width: nat)
    requires n + width <= |a| == |b| && a[..n] == b[..n]
    requires LittleEndian(a[n..n + width]) == LittleEndian(b[n..n + width])
    ensures a[..n + width] == b[..n + width]
  {
    SameWord(a[n..n + width], b[n..n + width]);
    AgreementGrows(a, b, n, width);
  }

  /** The byte-at-a-time loop that ends both searches. */
  method MatchBytes(a: seq<byte>, b: seq<byte>, matched0: nat) returns (matched: nat)
    requires matched0 <= |a| == |b| && a[..matched0] == b[..matched0]
    ensures IsMatchLength(a, b, matched)
  {
    matched := matched0;
    while matched < |b| && a[matched] == b[matched]
      invariant matched <= |a| && a[..matched] == b[..matched]
    {
      AgreementGrows(a, b, matched, 1);
      matched := matched + 1;
    }
  }

  /** FindMatchLength for 64-bit little-endian machines. */
  method FindMatchLength(a: seq<byte>, b: seq<byte>) returns (matched: nat)
    requires |a| == |b|
    ensures IsMatchLength(a, b, matched)
  {
    hide DisagreeAfter, LittleEndian, IsMatchLength;
    matched := 0;
    while matched <= |b| - 8
      invariant matched <= |a| && a[..matched] == b[..matched]
    {
      if Load64(a, matched) == Load64(b, matched) {
        WordAgrees(a, b, matched, 8);
        matched := matched + 8;
      } else {
        var k := FirstDifference64(a, b, matched);
        MatchEnds(a, b, matched, k);
        matched := matched + k;
        return;
      }
    }
    matched := MatchBytes(a, b, matched);
  }

  /** FindMatchLength for the other machines: words of 32 bits, and one word compared by bits. */
  method FindMatchLength32(a: seq<byte>, b: seq<byte>) returns (matched: nat)
    requires |a| == |b|
    ensures IsMatchLength(a, b, matched)
  {
    hide DisagreeAfter, LittleEndian, IsMatchLength;
    matched := 0;
    while matched <= |b| - 4 && Load32(b, matched) == Load32(a, matched)
      invariant matched <= |a| && a[..matched] == b[..matched]
    {
      WordAgrees(a, b, matched, 4);
      matched := matched + 4;
    }
    if matched <= |b| - 4 {
      var k := FirstDifference32(a, b, matched);
      MatchEnds(a, b, matched, k);
      matched := matched + k;
    } else {
      matched := MatchBytes(a, b, matched);
    }
  }
}
