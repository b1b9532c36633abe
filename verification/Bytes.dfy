// Bytes, fixed-width unsigned words and their little-endian memory image.

/** The machine-level vocabulary shared by the codec: bytes, unsigned words, little-endian loads
    and the eight-byte copy.  Words are mathematical integers; every wrap-around of the C code is
    written out as an explicit remainder. */
module Bytes {

  type byte = b: int | 0 <= b < 256

  type uint16 = w: int | 0 <= w < 0x1_0000

  type uint32 = w: int | 0 <= w < 0x1_0000_0000

  /** The value of a little-endian string of bytes. */
  function LittleEndian(s: seq<byte>): nat {
    if |s| == 0 then 0 else s[0] + 256 * LittleEndian(s[1..])
  }

  /** 256 to the power n: one more than the largest n-byte value. */
  function Pow256(n: nat): (p: nat)
    ensures p > 0
  {
    if n == 0 then 1 else 256 * Pow256(n - 1)
  }

  lemma LittleEndianShort(a: byte, b: byte)
    ensures LittleEndian([a]) == a
    ensures LittleEndian([a, b]) == a + 256 * b
  {
    assert [a][1..] == [] && [b][1..] == [] && [a, b][1..] == [b];
    assert LittleEndian([b]) == b;
  }

  lemma LittleEndianBound(s: seq<byte>)
    ensures LittleEndian(s) < Pow256(|s|)
  {
    if |s| > 0 {
      LittleEndianBound(s[1..]);
    }
  }

  lemma {:induction false} LittleEndianInjective(s: seq<byte>, t: seq<byte>)
    requires |s| == |t|
    requires LittleEndian(s) == LittleEndian(t)
    ensures s == t
  {
    if |s| == 0 {
    } else {
      assert s[0] == LittleEndian(s) % 256 == t[0];
      LittleEndianInjective(s[1..], t[1..]);
      assert s == [s[0]] + s[1..] && t == [t[0]] + t[1..];
    }
  }

  /** Two strings of one length are the same word exactly when they are the same bytes. */
  lemma SameWord(s: seq<byte>, t: seq<byte>)
    requires |s| == |t|
    ensures LittleEndian(s) == LittleEndian(t) <==> s == t
  {
    if LittleEndian(s) == LittleEndian(t) {
      LittleEndianInjective(s, t);
    }
  }

  lemma SliceOfSlice(s: seq<byte>, a: nat, b: nat, c: nat, d: nat)
    requires c <= d && a + d <= b <= |s|
    ensures s[a..b][c..d] == s[a + c..a + d]
  {
    var u, v := s[a..b][c..d], s[a + c..a + d];
    assert |u| == |v| == d - c;
    forall i | 0 <= i < |u| ensures u[i] == v[i] {
      assert u[i] == s[a..b][c + i] == s[a + (c + i)];
    }
  }

  /** A value shifted right by k whole bytes. */
  function ShiftBytes(v: nat, k: nat): nat {
    if k == 0 then v else ShiftBytes(v / 256, k - 1)
  }

  lemma {:induction false} ShiftDropsLowBytes(s: seq<byte>, k: nat)
    requires k <= |s|
    ensures ShiftBytes(LittleEndian(s), k) == LittleEndian(s[k..])
  {
    if k == 0 {
      assert s[0..] == s;
    } else {
      assert LittleEndian(s) / 256 == LittleEndian(s[1..]);
      ShiftDropsLowBytes(s[1..], k - 1);
      assert s[1..][k - 1..] == s[k..];
    }
  }

  lemma {:induction false} LowBytes(s: seq<byte>, k: nat)
    requires k <= |s|
    ensures LittleEndian(s) % Pow256(k) == LittleEndian(s[..k])
  {
    if k == 0 {
      assert LittleEndian(s) % 1 == 0;
    } else {
      LowBytes(s[1..], k - 1);
      assert s[..k][1..] == s[1..][..k - 1];
      LittleEndianBound(s[..k]);
      LowBytesStep(s[0], LittleEndian(s[1..]), LittleEndian(s[1..][..k - 1]), k - 1);
    }
  }

  lemma LowBytesStep(low: byte, high: nat, r: nat, k: nat)
    requires high % Pow256(k) == r
    ensures (low + 256 * high) % Pow256(k + 1) == low + 256 * r
  {
    ScaleRemainder(low, high, Pow256(k));
  }

  lemma ScaleRemainder(low: byte, high: nat, d: nat)
    requires d > 0
    ensures (low + 256 * high) % (256 * d) == low + 256 * (high % d)
  {
    var q, r, e := high / d, high % d, 256 * d;
    assert high == q * d + r;
    MulScale(q, d);
    RemainderIs(low + 256 * high, e, q, low + 256 * r);
  }

  lemma MulScale(q: nat, d: nat)
    ensures q * (256 * d) == 256 * (q * d)
  {
  }

  lemma RemainderIs(a: nat, d: nat, q: nat, r: nat)
    requires r < d && a == q * d + r
    ensures a % d == r
  {
    var e := a / d - q;
    assert e * d == r - a % d by {
      assert a == a / d * d + a % d;
      assert a / d * d - q * d == e * d;
    }
    MultipleIsFar(e, d);
  }

  lemma MultipleIsFar(e: int, d: nat)
    ensures e >= 1 ==> e * d >= d
    ensures e <= -1 ==> e * d <= -(d as int)
  {
  }

  lemma Pow256Values()
    ensures Pow256(0) == 1 && Pow256(1) == 256 && Pow256(2) == 0x1_0000
    ensures Pow256(3) == 0x100_0000 && Pow256(4) == 0x1_0000_0000
  {
  }

  /** UNALIGNED_LOAD32 on a little-endian machine. */
  function Load32(s: seq<byte>, p: nat): nat
    requires p + 4 <= |s|
  {
    LittleEndian(s[p..p + 4])
  }

  /** UNALIGNED_LOAD64 on a little-endian machine. */
  function Load64(s: seq<byte>, p: nat): nat
    requires p + 8 <= |s|
  {
    LittleEndian(s[p..p + 8])
  }

  /** The masks that keep the bottom n bytes of a word. */
  const WORD_MASK: seq<nat> := [0, 0xff, 0xffff, 0xff_ffff, 0xffff_ffff]

  /** get_unaligned_le: a full four-byte load, masked down to its bottom n bytes.
      The mask is one less than a power of two, so the `and` is a remainder. */
  function GetUnalignedLe(s: seq<byte>, p: nat, n: nat): nat
    requires n <= 4
    requires p + 4 <= |s|
  {
    Load32(s, p) % (WORD_MASK[n] + 1)
  }

  /** The masked load is the value of the n bytes at p: whatever follows them does not matter. */
  lemma MaskedLoad(s: seq<byte>, p: nat, n: nat)
    requires n <= 4
    requires p + 4 <= |s|
    ensures GetUnalignedLe(s, p, n) == LittleEndian(s[p..p + n])
    ensures GetUnalignedLe(s, p, n) < 0x1_0000_0000
  {
    LowBytes(s[p..p + 4], n);
    assert s[p..p + 4][..n] == s[p..p + n];
    LittleEndianBound(s[p..p + 4]);
    assert Pow256(4) == 0x1_0000_0000;
    MaskIsPower(n);
  }

  lemma MaskIsPower(n: nat)
    requires n <= 4
    ensures WORD_MASK[n] + 1 == Pow256(n)
  {
    Pow256Values();
  }

  /** `*p++ = b`: extend the bytes written so far by one. */
  method PutByte(a: array<byte>, p: nat, b: byte) returns (next: nat)
    requires p < a.Length
    modifies a
    ensures next == p + 1
    ensures a[..next] == old(a[..p]) + [b]
    ensures forall j :: next <= j < a.Length ==> a[j] == old(a[j])
  {
    a[p] := b;
    next := p + 1;
  }

  /** Appending one by one and appending together. */
  lemma Gather(s: seq<byte>, t: seq<byte>, u: seq<byte>)
    ensures (s + t) + u == s + (t + u)
  {
  }

  /** UnalignedCopy64 within one buffer: load eight bytes, then store eight bytes, so overlapping
      source and destination see the bytes as they were before the call. */
  method UnalignedCopy64(a: array<byte>, src: nat, dst: nat)
    requires src + 8 <= a.Length && dst + 8 <= a.Length
    modifies a
    ensures forall j :: dst <= j < dst + 8 ==> a[j] == old(a[src + (j - dst)])
    ensures forall j :: 0 <= j < dst || dst + 8 <= j < a.Length ==> a[j] == old(a[j])
  {
    var word := a[src..src + 8];
    forall i | 0 <= i < 8 {
      a[dst + i] := word[i];
    }
  }

  /** UnalignedCopy64 from a read-only buffer. */
  method UnalignedCopy64From(s: seq<byte>, src: nat, a: array<byte>, dst: nat)
    requires src + 8 <= |s| && dst + 8 <= a.Length
    modifies a
    ensures a[..dst + 8] == old(a[..dst]) + s[src..src + 8]
    ensures forall j :: dst + 8 <= j < a.Length ==> a[j] == old(a[j])
  {
    var word := s[src..src + 8];
    forall i | 0 <= i < 8 {
      a[dst + i] := word[i];
    }
  }

  /** memcpy from a read-only buffer; memmove as well, since s is a snapshot of the source bytes. */
  method MemCopy(s: seq<byte>, src: nat, a: array<byte>, dst: nat, n: nat)
    requires src + n <= |s| && dst + n <= a.Length
    modifies a
    ensures a[..dst + n] == old(a[..dst]) + s[src..src + n]
    ensures forall j :: dst + n <= j < a.Length ==> a[j] == old(a[j])
  {
    var bytes := s[src..src + n];
    forall i | 0 <= i < n {
      a[dst + i] := bytes[i];
    }
  }

  /** Two eight-byte copies in a row store sixteen bytes, of which the first n are wanted. */
  method Copy16From(s: seq<byte>, src: nat, a: array<byte>, dst: nat, n: nat)
    requires src + 16 <= |s| && dst + 16 <= a.Length && n <= 16
    modifies a
    ensures a[..dst + n] == old(a[..dst]) + s[src..src + n]
    ensures forall j :: dst + 16 <= j < a.Length ==> a[j] == old(a[j])
  {
    ghost var before := a[..dst];
    UnalignedCopy64From(s, src, a, dst);
    UnalignedCopy64From(s, src + 8, a, dst + 8);
    assert a[..dst + 16] == before + s[src..src + 16] by {
      assert s[src..src + 16] == s[src..src + 8] + s[src + 8..src + 8 + 8];
    }
    assert a[..dst + n] == a[..dst + 16][..dst + n];
    assert s[src..src + n] == s[src..src + 16][..n];
  }
}
