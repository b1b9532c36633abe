// The bytes of headers and elements, in numbers.

/** The other modules speak of bytes through the functions of the format.  Here those are tied to the
    tables of sections 1, 2.1 and 2.2 of the Snappy compressed format description: which bytes stand for
    which number, literal or copy, and which bytes the compressor chooses. */
module WireFormat {
  import opened Bytes
  import opened Emit
  import opened Format
  import opened Varint

  // ---------------------------------------------------------------------------------------------
  // Reading elements
  // ---------------------------------------------------------------------------------------------

  /** A tag of type 0 below 60 holds the length of the literal itself. */
  lemma ShortLiteralIsRead(bytes: seq<byte>, rest: seq<byte>)
    requires 1 <= |bytes| <= 60
    ensures ParseElement([4 * (|bytes| - 1)] + bytes + rest) == Whole(Literal(bytes), 1 + |bytes|)
  {
    var s := [4 * (|bytes| - 1)] + bytes + rest;
    assert s[0] == 4 * (|bytes| - 1) && s[0] / 4 == |bytes| - 1;
    assert s[1..1] == [];
    assert s[1..1 + |bytes|] == bytes;
  }

  /** One of 60 to 63 has the length, less one, in one to four bytes after it, whether or not fewer
      would do. */
  lemma LongLiteralIsRead(field: seq<byte>, bytes: seq<byte>, rest: seq<byte>)
    requires 1 <= |field| <= 4
    requires |bytes| == 1 + field[0] as int
        + (if |field| > 1 then 0x100 * field[1] as int else 0)
        + (if |field| > 2 then 0x1_0000 * field[2] as int else 0)
        + (if |field| > 3 then 0x100_0000 * field[3] as int else 0)
    ensures ParseElement([4 * (59 + |field|)] + field + bytes + rest) == Whole(Literal(bytes), 1 + |field| + |bytes|)
  {
    var s := [4 * (59 + |field|)] + field + bytes + rest;
    FieldValue(field);
    assert s[0] == 4 * (59 + |field|) && s[0] / 4 == 59 + |field|;
    assert s[1..1 + |field|] == field;
    hide LittleEndian;
    assert s[1 + |field|..1 + |field| + |bytes|] == bytes;
  }

  lemma FieldValue(s: seq<byte>)
    requires 1 <= |s| <= 4
    ensures LittleEndian(s) == s[0] as int
        + (if |s| > 1 then 0x100 * s[1] as int else 0)
        + (if |s| > 2 then 0x1_0000 * s[2] as int else 0)
        + (if |s| > 3 then 0x100_0000 * s[3] as int else 0)
  {
    if |s| > 1 {
      FieldValue(s[1..]);
    }
  }

  /** A tag of type 1 holds a length of 4 to 11 and the upper three bits of an 11-bit offset. */
  lemma OneByteCopyIsRead(offset: nat, len: nat, rest: seq<byte>)
    requires offset < 2048 && 4 <= len <= 11
    ensures ParseElement([1 + 4 * (len - 4) + 32 * (offset / 256), offset % 256] + rest) == Whole(Copy(offset, len), 2)
  {
    ShortCopyRoundTrip(offset, len, rest);
  }

  /** One of type 2 holds a length of 1 to 64, and a 16-bit offset follows. */
  lemma TwoByteCopyIsRead(offset: nat, len: nat, rest: seq<byte>)
    requires offset < 0x1_0000 && 1 <= len <= 64
    ensures ParseElement([2 + 4 * (len - 1), offset % 256, offset / 256] + rest) == Whole(Copy(offset, len), 3)
  {
    var tag: byte := 2 + 4 * (len - 1);
    var s := [tag, offset % 256, offset / 256] + rest;
    assert s[1..3] == [offset % 256, offset / 256];
    LittleEndianShort(offset % 256, offset / 256);
    assert tag / 4 == len - 1 && tag % 4 == 2;
    assert CopyElement(tag, offset) == Copy(offset, len);
  }

  /** One of type 3 likewise, with a 32-bit offset, which the compressor never writes. */
  lemma FourByteCopyIsRead(offset: uint32, len: nat, rest: seq<byte>)
    requires 1 <= len <= 64
    ensures ParseElement([3 + 4 * (len - 1), offset % 256, offset / 0x100 % 256, offset / 0x1_0000 % 256,
                          offset / 0x100_0000] + rest)
         == Whole(Copy(offset, len), 5)
  {
    var tag: byte := 3 + 4 * (len - 1);
    var field: seq<byte> :=
      [offset % 256, offset / 0x100 % 256, offset / 0x1_0000 % 256, offset / 0x100_0000];
    var s := [tag, offset % 256, offset / 0x100 % 256, offset / 0x1_0000 % 256, offset / 0x100_0000] + rest;
    FieldValue(field);
    FourDigits(offset);
    assert s[1..5] == field;
    hide LittleEndian;
    assert tag / 4 == len - 1 && tag % 4 == 3;
    assert CopyElement(tag, offset) == Copy(offset, len);
  }

  lemma FourDigits(v: uint32)
    ensures v == v % 256 + 0x100 * (v / 0x100 % 256) + 0x1_0000 * (v / 0x1_0000 % 256) + 0x100_0000 * (v / 0x100_0000)
  {
    assert v / 0x1_0000 == v / 0x100 / 256 && v / 0x100_0000 == v / 0x1_0000 / 256;
  }

  // ---------------------------------------------------------------------------------------------
  // Writing elements
  // ---------------------------------------------------------------------------------------------

  /** A literal has the shortest header that can hold its length, less one. */
  lemma LiteralIsWritten(bytes: seq<byte>)
    requires 1 <= |bytes| <= 0x100_0000
    ensures var n := |bytes| - 1;
            EncodeElement(Literal(bytes)) ==
            (if n < 60 then [4 * n]
             else if n < 0x100 then [240, n]
             else if n < 0x1_0000 then [244, n % 256, n / 256]
             else [248, n % 256, n / 256 % 256, n / 0x1_0000]) + bytes
  {
    var n := |bytes| - 1;
    if n >= 60 {
      Digits(n);
    }
  }

  lemma Digits(n: nat)
    requires 0 < n < 0x100_0000
    ensures MinimalBytes(n) == if n < 0x100 then [n]
                               else if n < 0x1_0000 then [n % 256, n / 256]
                               else [n % 256, n / 256 % 256, n / 0x1_0000]
  {
    if n >= 0x100 {
      Digits(n / 256);
      assert n / 256 / 256 == n / 0x1_0000;
    }
  }

  /** A copy has two bytes when its length and offset allow, and otherwise three. */
  lemma CopyIsWritten(offset: nat, len: nat)
    requires offset < 0x1_0000 && 4 <= len <= 64
    ensures EncodeElement(Copy(offset, len)) ==
            if len < 12 && offset < 2048 then [1 + 4 * (len - 4) + 32 * (offset / 256), offset % 256]
            else [2 + 4 * (len - 1), offset % 256, offset / 256]
  {
  }

  /** A long copy is one of 64 bytes as often as that leaves four or more, and the rest, which has at most
      67 bytes, is one copy, or one of 60 and one of what is left. */
  lemma {:induction false} SplitCopyForm(offset: nat, len: nat)
    requires len >= 4
    ensures var q := (len - 4) / 64;
            var r, pieces := len - 64 * q, SplitCopy(offset, len);
            && (forall i :: 0 <= i < q ==> i < |pieces| && pieces[i] == Copy(offset, 64))
            && (if r <= 64 then |pieces| == q + 1 && pieces[q] == Copy(offset, r)
                else |pieces| == q + 2 && pieces[q] == Copy(offset, 60) && pieces[q + 1] == Copy(offset, r - 60))
    decreases len
  {
    if len < 68 {
      assert (len - 4) / 64 == 0;
    } else {
      SplitCopyForm(offset, len - 64);
      assert (len - 4) / 64 == (len - 64 - 4) / 64 + 1;
      assert SplitCopy(offset, len)[1..] == SplitCopy(offset, len - 64);
    }
  }

  // ---------------------------------------------------------------------------------------------
  // The length header
  // ---------------------------------------------------------------------------------------------

  /** A header ends with its first byte below 128; its bytes hold seven bits each, the lowest first. */
  lemma {:induction false} HeaderIsRead(s: seq<byte>, n: nat, limit: nat)
    requires 1 <= n <= limit <= 5 && n <= |s|
    requires s[n - 1] < 128 && forall i :: 0 <= i < n - 1 ==> s[i] >= 128
    ensures ReadHeader(s, limit) == Some(Prefix(s[0] as int % 128
        + (if n > 1 then 0x80 * (s[1] as int % 128) else 0)
        + (if n > 2 then 0x4000 * (s[2] as int % 128) else 0)
        + (if n > 3 then 0x20_0000 * (s[3] as int % 128) else 0)
        + (if n > 4 then 0x1000_0000 * (s[4] as int % 128) else 0), n))
    decreases n
  {
    if n == 1 {
    } else {
      HeaderIsRead(s[1..], n - 1, limit - 1);
    }
  }

  /** There is no header when all bytes that may belong to it have the top bit set. */
  lemma {:induction false} NoHeaderIsRead(s: seq<byte>, limit: nat)
    requires forall i :: 0 <= i < |s| && i < limit ==> s[i] >= 128
    ensures ReadHeader(s, limit) == None
    decreases limit
  {
    if limit == 0 || s == [] {
    } else {
      NoHeaderIsRead(s[1..], limit - 1);
    }
  }

  /** The header written for a 32-bit number. */
  lemma HeaderIsWritten(v: uint32)
    ensures Header(v) ==
            if v < 0x80 then [v]
            else if v < 0x4000 then [v % 128 + 128, v / 0x80]
            else if v < 0x20_0000 then [v % 128 + 128, v / 0x80 % 128 + 128, v / 0x4000]
            else if v < 0x1000_0000 then
              [v % 128 + 128, v / 0x80 % 128 + 128, v / 0x4000 % 128 + 128, v / 0x20_0000]
            else
              [v % 128 + 128, v / 0x80 % 128 + 128, v / 0x4000 % 128 + 128, v / 0x20_0000 % 128 + 128, v / 0x1000_0000]
  {
    hide Header;
    if v < 0x80 {
      Header1Byte(v);
    } else if v < 0x4000 {
      Header2Bytes(v);
    } else if v < 0x20_0000 {
      Header3Bytes(v);
    } else if v < 0x1000_0000 {
      Header4Bytes(v);
    } else {
      Header5Bytes(v);
    }
  }
}
