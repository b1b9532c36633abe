// The decoder's output side: overlapped copies and the bounds-checked array writer.

module Writer {
  import opened Bytes
  import opened Format
  import opened Status

  // ---------------------------------------------------------------------------------------------
  // Overlapped copies within the output buffer
  // ---------------------------------------------------------------------------------------------

  lemma CopyPrefix(out: seq<byte>, offset: nat, a: nat, b: nat)
    requires 1 <= offset <= |out|
    ensures CopyBytes(out, offset, a + b)[..|out| + a] == CopyBytes(out, offset, a)
  {
    CopyInTwoPieces(out, offset, a, b);
    var mid := CopyBytes(out, offset, a);
    assert CopyBytes(mid, offset, b)[..|mid|] == mid;
  }

  /** The copied bytes also repeat with every multiple of the offset. */
  lemma {:induction false} CopyRepeats(out: seq<byte>, offset: nat, len: nat, c: nat, j: nat)
    requires 1 <= offset <= |out|
    requires |out| - offset + c * offset <= j < |out| + len
    ensures 0 <= j - c * offset
    ensures CopyBytes(out, offset, len)[j] == CopyBytes(out, offset, len)[j - c * offset]
    decreases c
  {
    if c == 0 {
    } else {
      assert c * offset == (c - 1) * offset + offset;
      assert (c - 1) * offset >= 0;
      CopyIsPeriodic(out, offset, len, j);
      CopyRepeats(out, offset, len, c - 1, j - offset);
    }
  }

  /** A distance between source and destination that the doubling loop goes through. */
  predicate Doubled(gap: nat, offset: nat) {
    gap == offset || gap == 2 * offset || gap == 4 * offset || gap == 8 * offset
  }

  lemma DoubledRepeats(out: seq<byte>, offset: nat, len: nat, gap: nat, j: nat)
    requires 1 <= offset <= |out| && Doubled(gap, offset)
    requires |out| - offset + gap <= j < |out| + len
    ensures CopyBytes(out, offset, len)[j] == CopyBytes(out, offset, len)[j - gap]
  {
    CopyRepeats(out, offset, len,
                if gap == offset then 1 else if gap == 2 * offset then 2 else if gap == 4 * offset then 4 else 8,
                j);
  }

  /** One eight-byte copy.  The bytes below `op` are those of the goal; afterwards, so are the next
      ones, as many as lie between source and destination. */
  method CopyEight(a: array<byte>, src: nat, op: nat, ghost gap: nat, ghost good: nat,
                   ghost out: seq<byte>, ghost offset: nat, ghost goal: nat)
    requires 1 <= offset <= |out| && Doubled(gap, offset)
    requires op == src + gap && |out| - offset <= src && op + 8 <= a.Length
    requires good <= gap && good <= 8 && op + good <= |out| + goal
    requires a[..op] == CopyBytes(out, offset, goal)[..op]
    modifies a
    ensures a[..op + good] == CopyBytes(out, offset, goal)[..op + good]
    ensures forall j :: op + 8 <= j < a.Length ==> a[j] == old(a[j])
  {
    hide CopyBytes;
    ghost var r := CopyBytes(out, offset, goal);
    forall j | op <= j < op + good ensures a[src + (j - op)] == r[j] {
      DoubledRepeats(out, offset, goal, gap, j);
      assert a[..op][j - gap] == r[..op][j - gap];
    }
    UnalignedCopy64(a, src, op);
    assert a[..op] == old(a[..op]);
    forall j | 0 <= j < op + good ensures a[j] == r[j] {
      if j < op {
        assert a[..op][j] == r[..op][j];
      }
    }
  }

  lemma CopyOne(out: seq<byte>, offset: nat, len: nat)
    requires 1 <= offset <= |out| && len > 0
    ensures CopyBytes(out, offset, len) == CopyBytes(out + [out[|out| - offset]], offset, len - 1)
  {
  }

  lemma CopyNone(out: seq<byte>, offset: nat)
    requires 1 <= offset <= |out|
    ensures CopyBytes(out, offset, 0) == out
  {
  }

  /** IncrementalCopy: byte by byte. */
  method IncrementalCopy(a: array<byte>, src0: nat, op0: nat, len0: nat)
    requires src0 < op0 && 0 < len0 && op0 + len0 <= a.Length
    modifies a
    ensures a[..op0 + len0] == CopyBytes(old(a[..op0]), op0 - src0, len0)
    ensures forall j :: op0 + len0 <= j < a.Length ==> a[j] == old(a[j])
  {
    hide CopyBytes;
    var src, op, len := src0, op0, len0;
    ghost var goal := CopyBytes(a[..op0], op0 - src0, len0);
    while true
      invariant 0 < len && op + len == op0 + len0 && op - src == op0 - src0
      invariant CopyBytes(a[..op], op0 - src0, len) == goal
      invariant forall j :: op <= j < a.Length ==> a[j] == old(a[j])
      decreases len
    {
      CopyOne(a[..op], op0 - src0, len);
      ghost var before := a[..op];
      a[op] := a[src];
      assert a[..op + 1] == before + [before[|before| - (op0 - src0)]];
      op := op + 1;
      src := src + 1;
      len := len - 1;
      if len <= 0 {
        break;
      }
    }
    CopyNone(a[..op], op0 - src0);
  }

  /** IncrementalCopyFastPath: the same first len bytes, with at most ten surplus bytes after them. */
  method IncrementalCopyFastPath(a: array<byte>, src0: nat, op0: nat, len0: nat)
    requires src0 < op0 && 0 < len0 && op0 + len0 + 10 <= a.Length
    modifies a
    ensures a[..op0 + len0] == CopyBytes(old(a[..op0]), op0 - src0, len0)
    ensures forall j :: op0 + len0 + 10 <= j < a.Length ==> a[j] == old(a[j])
  {
    hide CopyBytes;
    ghost var out, offset, goal := a[..op0], op0 - src0, len0 + 10;
    var src, op := src0, op0;
    var len: int := len0;
    assert a[..op0] == CopyBytes(out, offset, goal)[..op0];
    while op - src < 8
      invariant src == src0 && op + len == op0 + len0
      invariant Doubled(op - src, offset)
      invariant op <= op0 + 9
      invariant a[..op] == CopyBytes(out, offset, goal)[..op]
      invariant forall j :: op0 + len0 + 10 <= j < a.Length ==> a[j] == old(a[j])
      decreases 8 - (op - src)
    {
      CopyEight(a, src, op, op - src, op - src, out, offset, goal);
      len := len - (op - src);
      op := op + (op - src);
    }
    ghost var gap := op - src;
    while len > 0
      invariant src0 <= src && op == src + gap && op + len == op0 + len0
      invariant Doubled(gap, offset) && gap >= 8
      invariant op <= op0 + len0 + 8
      invariant a[..op] == CopyBytes(out, offset, goal)[..op]
      invariant forall j :: op0 + len0 + 10 <= j < a.Length ==> a[j] == old(a[j])
      decreases len
    {
      CopyEight(a, src, op, gap, 8, out, offset, goal);
      src := src + 8;
      op := op + 8;
      len := len - 8;
    }
    CopyPrefix(out, offset, len0, 10);
    assert a[..op0 + len0] == a[..op][..op0 + len0];
  }

  // ---------------------------------------------------------------------------------------------
  // SnappyArrayWriter
  // ---------------------------------------------------------------------------------------------

  /** A writer to a flat array.  The buffer starts at index 0, so `op` is also the number of bytes
      written. */
  class SnappyArrayWriter {
    const buf: array<byte>
    const opLimit: nat
    var op: nat

    ghost predicate Valid()
      reads this
    {
      op <= opLimit <= buf.Length && opLimit < 0x1_0000_0000
    }

    ghost function Output(): (s: seq<byte>)
      requires Valid()
      reads this, buf
      ensures |s| == op
    {
      buf[..op]
    }

    constructor (dst: array<byte>, dstLen: uint32)
      requires dstLen <= dst.Length
      ensures Valid() && buf == dst && opLimit == dstLen && op == 0
    {
      buf, opLimit, op := dst, dstLen, 0;
    }

    /** SAW__AppendFastPath: a short literal, with room on both sides for sixteen bytes. */
    method AppendFastPath(s: seq<byte>, ip: nat, len: nat) returns (ret: int)
      requires Valid() && len <= 16 && ip + 16 <= |s|
      modifies this`op, buf
      ensures Valid()
      ensures ret == if old(op) + len <= opLimit then 0 else -3
      ensures ret == 0 ==> Output() == old(Output()) + s[ip..ip + len]
      ensures ret != 0 ==> op == old(op)
      ensures forall j :: opLimit <= j < buf.Length ==> buf[j] == old(buf[j])
    {
      var spaceLeft := opLimit - op;
      if spaceLeft >= 16 {
        Copy16From(s, ip, buf, op, len);
      } else {
        if spaceLeft < len {
          return E_OUTPUT_OVERRUN;
        }
        MemCopy(s, ip, buf, op, len);
      }
      op := op + len;
      return E_OK;
    }

    /** SAW__Append: a literal of any length. */
    method Append(s: seq<byte>, ip: nat, len: nat) returns (ret: int)
      requires Valid() && (op + len <= opLimit ==> ip + len <= |s|)
      modifies this`op, buf
      ensures Valid()
      ensures ret == if old(op) + len <= opLimit then 0 else -3
      ensures ret == 0 ==> Output() == old(Output()) + s[ip..ip + len]
      ensures ret != 0 ==> op == old(op)
      ensures forall j :: opLimit <= j < buf.Length ==> buf[j] == old(buf[j])
    {
      var spaceLeft := opLimit - op;
      if spaceLeft < len {
        return E_OUTPUT_OVERRUN;
      }
      MemCopy(s, ip, buf, op, len);
      op := op + len;
      return E_OK;
    }

    /** SAW__AppendFromSelf: an overlapped copy.  An offset of zero wraps around to the largest word,
        and so is refused together with offsets that reach before the start. */
    method AppendFromSelf(offset: uint32, len: nat) returns (ret: int)
      requires Valid() && 1 <= len <= 64
      modifies this`op, buf
      ensures Valid()
      ensures ret == if !(1 <= offset <= old(op)) then -5 else if old(op) + len <= opLimit then 0 else -3
      ensures ret == 0 ==> Output() == CopyBytes(old(Output()), offset, len)
      ensures ret != 0 ==> op == old(op)
      ensures forall j :: opLimit <= j < buf.Length ==> buf[j] == old(buf[j])
    {
      hide CopyBytes;
      var spaceLeft := opLimit - op;
      if op <= (offset - 1) % 0x1_0000_0000 {
        return E_DATA_MALFORMED;
      }
      if len <= 16 && offset >= 8 && spaceLeft >= 16 {
        CopySixteen(buf, op, offset, len);
      } else if spaceLeft >= len + 10 {
        IncrementalCopyFastPath(buf, op - offset, op, len);
      } else {
        if spaceLeft < len {
          return E_OUTPUT_OVERRUN;
        }
        IncrementalCopy(buf, op - offset, op, len);
      }
      op := op + len;
      return E_OK;
    }
  }

  /** The fast path for short copies that are at least eight bytes apart. */
  method CopySixteen(a: array<byte>, op: nat, offset: nat, len: nat)
    requires 8 <= offset <= op && op + 16 <= a.Length && len <= 16
    modifies a
    ensures a[..op + len] == CopyBytes(old(a[..op]), offset, len)
    ensures forall j :: op + 16 <= j < a.Length ==> a[j] == old(a[j])
  {
    hide CopyBytes;
    ghost var out := a[..op];
    assert a[..op] == CopyBytes(out, offset, 16)[..op];
    CopyEight(a, op - offset, op, offset, 8, out, offset, 16);
    CopyEight(a, op - offset + 8, op + 8, offset, 8, out, offset, 16);
    CopyPrefix(out, offset, len, 16 - len);
    assert a[..op + len] == a[..op + 16][..op + len];
  }
}
