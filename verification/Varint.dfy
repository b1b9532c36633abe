// The length header: a little-endian base-128 number of one to five bytes.

module Varint {
  import opened Bytes
  import opened Format
  import opened Status

  /** The header for v: seven bits a byte, all but the last with the top bit set. */
  function Header(v: nat): (r: seq<byte>)
    ensures |r| >= 1
  {
    if v < 128 then [v] else [v % 128 + 128] + Header(v / 128)
  }

  datatype Prefix = Prefix(value: nat, size: nat)

  /** The number at the front of s, if it ends within `limit` bytes. */
  function ReadHeader(s: seq<byte>, limit: nat): (r: Option<Prefix>)
    ensures r.Some? ==> 1 <= r.value.size <= |s| && r.value.size <= limit
  {
    if limit == 0 || s == [] then None
    else if s[0] < 128 then Some(Prefix(s[0], 1))
    else match ReadHeader(s[1..], limit - 1)
      case None => None
      case Some(Prefix(v, n)) => Some(Prefix(s[0] % 128 + 128 * v, n + 1))
  }

  /** The weight of the i-th header byte. */
  function Weight(i: nat): (w: nat)
    ensures w > 0
  {
    if i == 0 then 1 else 128 * Weight(i - 1)
  }

  lemma WeightValues()
    ensures Weight(0) == 1 && Weight(1) == 0x80 && Weight(2) == 0x4000
    ensures Weight(3) == 0x20_0000 && Weight(4) == 0x1000_0000
  {
  }

  lemma {:induction false} HeaderSize(v: nat, k: nat)
    requires v < Weight(k) && k > 0
    ensures |Header(v)| <= k
  {
    if v < 128 {
    } else {
      assert k > 1;
      HeaderSize(v / 128, k - 1);
    }
  }

  lemma HeaderOfWord(v: uint32)
    ensures 1 <= |Header(v)| <= 5
  {
    WeightValues();
    assert Weight(5) == 0x8_0000_0000;
    HeaderSize(v, 5);
  }

  /** Reading a header that was written gives the number back and consumes exactly its bytes. */
  lemma {:induction false} HeaderRoundTrip(v: nat, rest: seq<byte>, limit: nat)
    requires |Header(v)| <= limit
    ensures ReadHeader(Header(v) + rest, limit) == Some(Prefix(v, |Header(v)|))
  {
    if v < 128 {
    } else {
      assert (Header(v) + rest)[1..] == Header(v / 128) + rest;
      HeaderRoundTrip(v / 128, rest, limit - 1);
    }
  }

  // Bytes appended one at a time.

  lemma Gather2(s: seq<byte>, b0: byte, b1: byte)
    ensures s + [b0] + [b1] == s + [b0, b1]
  {
  }

  lemma Gather3(s: seq<byte>, b0: byte, b1: byte, b2: byte)
    ensures s + [b0] + [b1] + [b2] == s + [b0, b1, b2]
  {
  }

  lemma Gather4(s: seq<byte>, b0: byte, b1: byte, b2: byte, b3: byte)
    ensures s + [b0] + [b1] + [b2] + [b3] == s + [b0, b1, b2, b3]
  {
  }

  lemma Gather5(s: seq<byte>, b0: byte, b1: byte, b2: byte, b3: byte, b4: byte)
    ensures s + [b0] + [b1] + [b2] + [b3] + [b4] == s + [b0, b1, b2, b3, b4]
  {
  }

  /** encode_varint32: five unrolled cases. */
  method EncodeVarint32(out: array<byte>, p: nat, v: uint32) returns (end: nat)
    requires p + |Header(v)| <= out.Length
    modifies out
    ensures end == p + |Header(v)|
    ensures out[..end] == old(out[..p]) + Header(v)
    ensures forall j :: end <= j < out.Length ==> out[j] == old(out[j])
  {
    hide Header;
    end := p;
    ghost var before := out[..p];
    if v < 0x80 {
      Header1Byte(v);
      end := PutByte(out, end, v);
    } else if v < 0x4000 {
      Header2Bytes(v);
      Gather2(before, v % 128 + 128, v / 0x80);
      end := PutByte(out, end, v % 128 + 128);
      end := PutByte(out, end, v / 0x80);
    } else if v < 0x20_0000 {
      Header3Bytes(v);
      Gather3(before, v % 128 + 128, v / 0x80 % 128 + 128, v / 0x4000);
      end := PutByte(out, end, v % 128 + 128);
      end := PutByte(out, end, v / 0x80 % 128 + 128);
      end := PutByte(out, end, v / 0x4000);
    } else if v < 0x1000_0000 {
      Header4Bytes(v);
      Gather4(before, v % 128 + 128, v / 0x80 % 128 + 128, v / 0x4000 % 128 + 128, v / 0x20_0000);
      end := PutByte(out, end, v % 128 + 128);
      end := PutByte(out, end, v / 0x80 % 128 + 128);
      end := PutByte(out, end, v / 0x4000 % 128 + 128);
      end := PutByte(out, end, v / 0x20_0000);
    } else {
      Header5Bytes(v);
      Gather5(before, v % 128 + 128, v / 0x80 % 128 + 128, v / 0x4000 % 128 + 128,
              v / 0x20_0000 % 128 + 128, v / 0x1000_0000);
      end := PutByte(out, end, v % 128 + 128);
      end := PutByte(out, end, v / 0x80 % 128 + 128);
      end := PutByte(out, end, v / 0x4000 % 128 + 128);
      end := PutByte(out, end, v / 0x20_0000 % 128 + 128);
      end := PutByte(out, end, v / 0x1000_0000);
    }
  }

  // The header byte by byte, one lemma for each size.

  lemma Header1Byte(v: nat)
    requires v < 0x80
    ensures Header(v) == [v]
  {
  }

  lemma Header2Bytes(v: nat)
    requires 0x80 <= v < 0x4000
    ensures Header(v) == [v % 128 + 128, v / 0x80]
  {
    assert Header(v / 128) == [v / 128];
  }

  lemma Header3Bytes(v: nat)
    requires 0x4000 <= v < 0x20_0000
    ensures Header(v) == [v % 128 + 128, v / 0x80 % 128 + 128, v / 0x4000]
  {
    Header2Bytes(v / 128);
    assert v / 128 / 0x80 == v / 0x4000;
  }

  lemma Header4Bytes(v: nat)
    requires 0x20_0000 <= v < 0x1000_0000
    ensures Header(v) == [v % 128 + 128, v / 0x80 % 128 + 128, v / 0x4000 % 128 + 128, v / 0x20_0000]
  {
    Header3Bytes(v / 128);
    assert v / 128 / 0x80 == v / 0x4000;
    assert v / 128 / 0x4000 == v / 0x20_0000;
  }

  lemma Header5Bytes(v: nat)
    requires 0x1000_0000 <= v < 0x8_0000_0000
    ensures Header(v) == [v % 128 + 128, v / 0x80 % 128 + 128, v / 0x4000 % 128 + 128,
                          v / 0x20_0000 % 128 + 128, v / 0x1000_0000]
  {
    Header4Bytes(v / 128);
    assert v / 128 / 0x80 == v / 0x4000;
    assert v / 128 / 0x4000 == v / 0x20_0000;
    assert v / 128 / 0x20_0000 == v / 0x1000_0000;
  }

  /** The value read so far, continued by what the rest of the header says. */
  function Continue(acc: nat, i: nat, rest: Option<Prefix>): Option<Prefix> {
    match rest
    case None => None
    case Some(Prefix(v, n)) => Some(Prefix(acc + Weight(i) * v, i + n))
  }

  /** The value so far with the i-th byte taken in. */
  function Accumulate(acc: nat, i: nat, c: byte): nat {
    acc + Weight(i) * (c % 128)
  }

  lemma ContinueStep(s: seq<byte>, acc: nat, i: nat)
    requires i < |s| && i < 5
    ensures s[i] < 128 ==>
              Continue(acc, i, ReadHeader(s[i..], 5 - i)) == Some(Prefix(Accumulate(acc, i, s[i]), i + 1))
    ensures s[i] >= 128 ==>
              Continue(acc, i, ReadHeader(s[i..], 5 - i)) ==
              Continue(Accumulate(acc, i, s[i]), i + 1, ReadHeader(s[i + 1..], 5 - (i + 1)))
  {
    assert s[i..][1..] == s[i + 1..];
    match ReadHeader(s[i + 1..], 5 - (i + 1))
    case None =>
    case Some(Prefix(v, n)) =>
      Distribute(Weight(i), s[i] % 128, v);
  }

  lemma Distribute(w: nat, c: nat, v: nat)
    ensures w * (c + 128 * v) == w * c + (128 * w) * v
  {
  }

  /** One `or` of the accumulator with seven more bits, in 32-bit arithmetic: the bits are disjoint,
      and the shift loses those beyond the top. */
  function Accumulate32(result: uint32, i: nat, c: byte): nat {
    result + Weight(i) * (c % 128) % 0x1_0000_0000
  }

  lemma AccumulateBits(acc: nat, i: nat, c: byte)
    requires i < 5 && acc < Weight(i) && acc < 0x1_0000_0000
    ensures Accumulate(acc, i, c) < Weight(i + 1)
    ensures Accumulate32(acc, i, c) == Accumulate(acc, i, c) % 0x1_0000_0000
    ensures i < 4 ==> Accumulate(acc, i, c) < 0x1_0000_0000
  {
    WeightValues();
    var x := Weight(i) * (c % 128);
    MulBound(Weight(i), c % 128);
    if i < 4 {
      assert acc + x < Weight(i + 1) <= 0x1000_0000;
    } else {
      TopBits(c % 128);
    }
  }

  lemma MulBound(w: nat, b: nat)
    requires b <= 127
    ensures w * b <= 127 * w
  {
  }

  lemma TopBits(b: byte)
    ensures 0x1000_0000 * b % 0x1_0000_0000 == 0x1000_0000 * (b % 16)
  {
  }

  /** csnappy_get_uncompressed_length: the number of bytes read and, through `result`, the number,
      of which 32-bit arithmetic keeps the low 32 bits. */
  method GetUncompressedLength(src: seq<byte>) returns (ret: int, result: uint32)
    ensures match ReadHeader(src, 5)
            case None => ret == -1
            case Some(Prefix(v, n)) => ret == n && result == v % 0x1_0000_0000
  {
    result := 0;
    var i, shift := 0, 0;
    ghost var acc: nat := 0;
    hide Weight, ReadHeader, Continue, Accumulate, Accumulate32;
    ContinueStart(src);
    while true
      invariant i <= |src| && i <= 5 && shift == 7 * i
      invariant i < 5 ==> acc == result && acc < Weight(i)
      invariant ReadHeader(src, 5) == Continue(acc, i, ReadHeader(src[i..], 5 - i))
      decreases 5 - i
    {
      if shift >= 32 {
        HeaderTooLong(src, acc, i);
        return E_HEADER_BAD, result;
      }
      if i == |src| {
        HeaderTooLong(src, acc, i);
        return E_HEADER_BAD, result;
      }
      var c := src[i];
      ContinueStep(src, acc, i);
      AccumulateBits(acc, i, c);
      result := Accumulate32(result, i, c);
      acc := Accumulate(acc, i, c);
      i := i + 1;
      if c < 128 {
        break;
      }
      shift := shift + 7;
    }
    ret := i;
  }

  lemma ContinueStart(s: seq<byte>)
    ensures Weight(0) == 1
    ensures ReadHeader(s, 5) == Continue(0, 0, ReadHeader(s[0..], 5))
  {
    assert s[0..] == s;
  }

  lemma HeaderTooLong(s: seq<byte>, acc: nat, i: nat)
    requires i <= |s| && i <= 5 && (i == 5 || i == |s|)
    ensures Continue(acc, i, ReadHeader(s[i..], 5 - i)) == None
  {
  }
}
