// The lowest set bit of a word, and what it says about two words that differ.

module BitScan {
  import opened Bytes

  function Pow2(n: nat): (p: nat)
    ensures p > 0
  {
    if n == 0 then 1 else 2 * Pow2(n - 1)
  }

  /** The number of trailing zero bits. */
  function TrailingZeros(n: nat): nat
    requires n > 0
  {
    if n % 2 == 1 then 0 else 1 + TrailingZeros(n / 2)
  }

  /** Bitwise exclusive or. */
  function Xor(a: nat, b: nat): nat {
    if a == 0 && b == 0 then 0
    else (if a % 2 == b % 2 then 0 else 1) + 2 * Xor(a / 2, b / 2)
  }

  /** The lowest set bit really is one: the power of two divides n, an odd number of times. */
  lemma {:induction false} TrailingZerosMeaning(n: nat)
    requires n > 0
    ensures exists odd: nat :: odd % 2 == 1 && n == odd * Pow2(TrailingZeros(n))
  {
    if n % 2 == 1 {
      assert n == n * Pow2(0);
    } else {
      TrailingZerosMeaning(n / 2);
      var odd: nat :| odd % 2 == 1 && n / 2 == odd * Pow2(TrailingZeros(n / 2));
      Halves(0, odd, Pow2(TrailingZeros(n / 2)));
      assert n == odd * Pow2(TrailingZeros(n));
    }
  }

  lemma Halves(low: nat, high: nat, p: nat)
    ensures high * (2 * p) == 2 * (high * p)
    ensures (low + high * (2 * p)) % 2 == low % 2
    ensures (low + high * (2 * p)) / 2 == low / 2 + high * p
  {
  }

  lemma DoubleAddsZero(m: nat)
    requires m > 0
    ensures TrailingZeros(2 * m) == 1 + TrailingZeros(m)
  {
    assert 2 * m % 2 == 0 && 2 * m / 2 == m;
  }

  lemma {:induction false} ShiftAddsZeros(n: nat, k: nat)
    requires n > 0
    ensures n * Pow2(k) > 0
    ensures TrailingZeros(n * Pow2(k)) == k + TrailingZeros(n)
  {
    if k == 0 {
    } else {
      ShiftAddsZeros(n, k - 1);
      var m := n * Pow2(k - 1);
      assert n * Pow2(k) == 2 * m by { Halves(0, n, Pow2(k - 1)); }
      DoubleAddsZero(m);
    }
  }

  /** Only the lowest k bits matter when they are not all zero. */
  lemma {:induction false} LowBitsDecide(m: nat, r: nat, k: nat)
    requires 0 < r < Pow2(k)
    ensures m * Pow2(k) + r > 0
    ensures TrailingZeros(m * Pow2(k) + r) == TrailingZeros(r) < k
  {
    assert k > 0;
    assert m * Pow2(k) == 2 * (m * Pow2(k - 1));
    if r % 2 == 1 {
    } else {
      assert r / 2 < Pow2(k - 1);
      LowBitsDecide(m, r / 2, k - 1);
      assert (m * Pow2(k) + r) / 2 == m * Pow2(k - 1) + r / 2;
    }
  }

  lemma Pow2Values()
    ensures Pow2(0) == 1 && Pow2(1) == 2 && Pow2(2) == 4 && Pow2(4) == 16 && Pow2(8) == 256
    ensures Pow2(16) == 0x1_0000 && Pow2(32) == 0x1_0000_0000
  {
    assert Pow2(3) == 8;
    assert Pow2(8) == 2 * Pow2(7) == 4 * Pow2(6) == 8 * Pow2(5) == 16 * Pow2(4);
    Pow2Add(8, 8);
    Pow2Add(16, 16);
  }

  lemma {:induction false} Pow2Add(a: nat, b: nat)
    ensures Pow2(a + b) == Pow2(a) * Pow2(b)
  {
    if a == 0 {
    } else {
      Pow2Add(a - 1, b);
      assert Pow2(a + b) == 2 * Pow2(a - 1 + b);
      assert Pow2(a) * Pow2(b) == 2 * (Pow2(a - 1) * Pow2(b));
    }
  }

  lemma {:induction false} Pow2Monotone(a: nat, b: nat)
    requires a <= b
    ensures Pow2(a) <= Pow2(b)
    decreases b
  {
    if a == b {
    } else {
      Pow2Monotone(a, b - 1);
    }
  }

  /** A 32-bit left shift loses bits off the top. */
  function ShiftLeft32(n: uint32, shift: nat): uint32 {
    n * Pow2(shift) % 0x1_0000_0000
  }

  /** One probe of the scan: the shifted word is zero exactly when the lowest set bit falls off. */
  lemma ShiftLeft32Zeros(n: uint32, shift: nat)
    requires n > 0
    ensures ShiftLeft32(n, shift) == 0 <==> TrailingZeros(n) + shift >= 32
    ensures ShiftLeft32(n, shift) != 0 ==>
              TrailingZeros(ShiftLeft32(n, shift)) == TrailingZeros(n) + shift
  {
    var y := n * Pow2(shift);
    ShiftAddsZeros(n, shift);
    Pow2Values();
    var m, x := y / 0x1_0000_0000, y % 0x1_0000_0000;
    assert y == m * Pow2(32) + x;
    if x == 0 {
      ShiftAddsZeros(m, 32);
    } else {
      LowBitsDecide(m, x, 32);
    }
  }

  /** FindLSBSetNonZero, the portable binary search for the lowest set bit. */
  method FindLSBSetNonZero(n0: uint32) returns (rc: nat)
    requires n0 > 0
    ensures rc == TrailingZeros(n0) < 32
  {
    Pow2Values();
    assert n0 == 0 * Pow2(32) + n0;
    LowBitsDecide(0, n0, 32);
    var n := n0;
    var bits, i, shift := 31, 4, 16;
    while i >= 0
      invariant -1 <= i <= 4
      invariant shift == if i == 4 then 16 else if i == 3 then 8 else if i == 2 then 4
                         else if i == 1 then 2 else if i == 0 then 1 else 0
      invariant n > 0
      invariant TrailingZeros(n) + bits == TrailingZeros(n0) + 31
      invariant 32 - (if i < 0 then 1 else 2 * shift) <= TrailingZeros(n) < 32
    {
      ShiftLeft32Zeros(n, shift);
      var x := ShiftLeft32(n, shift);
      if x != 0 {
        assert x == 0 * Pow2(32) + x;
        LowBitsDecide(0, x, 32);
        n := x;
        bits := bits - shift;
      }
      shift := shift / 2;
      i := i - 1;
    }
    rc := bits;
  }

  /** FindLSBSetNonZero64, in terms of the 32-bit search on one half. */
  method FindLSBSetNonZero64(n: nat) returns (rc: nat)
    requires 0 < n < 0x1_0000_0000_0000_0000
    ensures rc == TrailingZeros(n) < 64
  {
    var bottom := n % 0x1_0000_0000;
    Pow2Values();
    assert n == n / 0x1_0000_0000 * Pow2(32) + bottom;
    if bottom == 0 {
      ShiftAddsZeros(n / 0x1_0000_0000, 32);
      var high := FindLSBSetNonZero(n / 0x1_0000_0000);
      rc := 32 + high;
    } else {
      LowBitsDecide(n / 0x1_0000_0000, bottom, 32);
      rc := FindLSBSetNonZero(bottom);
    }
  }

  // ---------------------------------------------------------------------------------------------
  // The first byte in which two words differ
  // ---------------------------------------------------------------------------------------------

  lemma {:induction false} XorSelf(a: nat)
    ensures Xor(a, a) == 0
  {
    if a == 0 {
    } else {
      XorSelf(a / 2);
    }
  }

  lemma {:induction false} XorDifferent(a: nat, b: nat)
    requires a != b
    ensures Xor(a, b) > 0
    decreases a + b
  {
    if a % 2 != b % 2 {
    } else {
      XorDifferent(a / 2, b / 2);
    }
  }

  lemma {:induction false} XorBound(a: nat, b: nat, k: nat)
    requires a < Pow2(k) && b < Pow2(k)
    ensures Xor(a, b) < Pow2(k)
    decreases k
  {
    if k == 0 {
    } else {
      XorBound(a / 2, b / 2, k - 1);
    }
  }

  /** Exclusive or works separately on the low k bits and on the rest. */
  lemma {:induction false} XorSplit(a: nat, b: nat, ha: nat, hb: nat, k: nat)
    requires a < Pow2(k) && b < Pow2(k)
    ensures Xor(a + ha * Pow2(k), b + hb * Pow2(k)) == Xor(a, b) + Xor(ha, hb) * Pow2(k)
    decreases k
  {
    if k == 0 {
    } else {
      var p := Pow2(k - 1);
      XorSplit(a / 2, b / 2, ha, hb, k - 1);
      Halves(a, ha, p);
      Halves(b, hb, p);
      assert Xor(ha, hb) * Pow2(k) == 2 * (Xor(ha, hb) * p) by {
        Halves(0, Xor(ha, hb), p);
      }
    }
  }

  /** What the first byte contributes: eight zeros when it agrees, ... */
  lemma XorWhenFirstByteAgrees(a: byte, ha: nat, hb: nat)
    requires ha != hb
    ensures Xor(ha, hb) > 0
    ensures Xor(a + 256 * ha, a + 256 * hb) > 0
    ensures TrailingZeros(Xor(a + 256 * ha, a + 256 * hb)) == 8 + TrailingZeros(Xor(ha, hb))
  {
    hide Pow2, Xor, TrailingZeros;
    Pow2Values();
    XorSplit(a, a, ha, hb, 8);
    XorSelf(a);
    XorDifferent(ha, hb);
    ShiftAddsZeros(Xor(ha, hb), 8);
  }

  /** ... fewer when it does not. */
  lemma XorWhenFirstByteDiffers(a: byte, b: byte, ha: nat, hb: nat)
    requires a != b
    ensures Xor(a + 256 * ha, b + 256 * hb) > 0
    ensures TrailingZeros(Xor(a + 256 * ha, b + 256 * hb)) < 8
  {
    hide Pow2, Xor, TrailingZeros;
    Pow2Values();
    XorSplit(a, b, ha, hb, 8);
    XorDifferent(a, b);
    XorBound(a, b, 8);
    LowBitsDecide(Xor(ha, hb), Xor(a, b), 8);
  }

  /** The index of the first byte in which two strings differ. */
  function FirstDifference(s: seq<byte>, t: seq<byte>): (k: nat)
    requires |s| == |t|
    requires s != t
    ensures k < |s| && s[k] != t[k]
    ensures forall i :: 0 <= i < k ==> s[i] == t[i]
    decreases |s|
  {
    assert s == [s[0]] + s[1..] && t == [t[0]] + t[1..];
    if s[0] != t[0] then 0
    else
      var k := FirstDifference(s[1..], t[1..]);
      assert forall i :: 0 <= i < k + 1 ==> s[i] == t[i] by {
        assert forall i :: 1 <= i < k + 1 ==> s[i] == s[1..][i - 1] && t[i] == t[1..][i - 1];
      }
      k + 1
  }

  /** The trailing zeros of the exclusive or of two words, divided by eight, count the bytes before
      the first one in which the words differ. */
  lemma {:induction false} FirstDifferingByte(s: seq<byte>, t: seq<byte>)
    requires |s| == |t|
    requires s != t
    ensures Xor(LittleEndian(s), LittleEndian(t)) > 0
    ensures TrailingZeros(Xor(LittleEndian(s), LittleEndian(t))) / 8 == FirstDifference(s, t)
    decreases |s|
  {
    var u, v := s[1..], t[1..];
    assert s == [s[0]] + u && t == [t[0]] + v;
    if s[0] == t[0] {
      FirstDifferingByte(u, v);
      SameWord(u, v);
      XorWhenFirstByteAgrees(s[0], LittleEndian(u), LittleEndian(v));
    } else {
      XorWhenFirstByteDiffers(s[0], t[0], LittleEndian(u), LittleEndian(v));
    }
  }
}
