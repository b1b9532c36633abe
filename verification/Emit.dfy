// Writing elements into the output buffer.

module Emit {
  import opened Bytes
  import opened Format

  /** One past the last byte that EmitLiteral may store, of which those beyond its result are surplus:
      the fast path always stores the tag and sixteen bytes. */
  function LiteralStoreEnd(op: nat, len: nat, fast: bool): nat
    requires 1 <= len <= 0x1_0000_0000
  {
    if fast && len <= 16 then op + 17 else op + |LiteralHeader(len)| + len
  }

  lemma ShortHeader(len: nat)
    requires 1 <= len <= 60
    ensures LiteralHeader(len) == [4 * (len - 1)]
  {
  }

  lemma LiteralCode(bytes: seq<byte>)
    requires 1 <= |bytes| <= 0x1_0000_0000
    ensures EncodeElement(Literal(bytes)) == LiteralHeader(|bytes|) + bytes
  {
  }

  /** EmitLiteral. */
  method EmitLiteral(out: array<byte>, op: nat, input: seq<byte>, literal: nat, len: nat, fast: bool)
    returns (end: nat)
    requires 1 <= len < 0x8000_0000 && literal + len <= |input|
    requires fast && len <= 16 ==> literal + 16 <= |input|
    requires LiteralStoreEnd(op, len, fast) <= out.Length
    modifies out
    ensures end == op + |LiteralHeader(len)| + len
    ensures out[..end] == old(out[..op]) + EncodeElement(Literal(input[literal..literal + len]))
    ensures forall j :: LiteralStoreEnd(op, len, fast) <= j < out.Length ==> out[j] == old(out[j])
  {
    hide EncodeElement, LiteralHeader;
    LiteralCode(input[literal..literal + len]);
    ghost var before := out[..op];
    var n := len - 1;
    if n < 60 {
      ShortHeader(len);
      end := PutByte(out, op, 4 * n);
      if fast && len <= 16 {
        Copy16From(input, literal, out, end, len);
        end := end + len;
        Gather(before, LiteralHeader(len), input[literal..literal + len]);
        return;
      }
    } else {
      end := EmitLongHeader(out, op, n);
    }
    MemCopy(input, literal, out, end, len);
    end := end + len;
    Gather(before, LiteralHeader(len), input[literal..literal + len]);
  }

  /** One round of the loop below: one more byte of the length field is written. */
  lemma FieldStep(field: seq<byte>, count: nat, n: nat)
    requires n > 0 && count <= |field|
    requires field[count..] == MinimalBytes(n)
    ensures count < |field| && field[count] == n % 256
    ensures field[count + 1..] == MinimalBytes(n / 256)
  {
    assert field[count..][0] == n % 256;
    assert field[count..][1..] == MinimalBytes(n / 256);
  }

  lemma LongHeader(n: nat)
    requires 60 <= n < 0x8000_0000
    ensures 1 <= |MinimalBytes(n)| <= 4
    ensures LiteralHeader(n + 1) == [4 * (59 + |MinimalBytes(n)|)] + MinimalBytes(n)
  {
    assert |LiteralHeader(n + 1)| <= 5;
  }

  /** The length field of a long literal, least significant byte first, and then its tag. */
  method EmitLongHeader(out: array<byte>, base: nat, n0: nat) returns (op: nat)
    requires 60 <= n0 < 0x8000_0000
    requires base + |LiteralHeader(n0 + 1)| <= out.Length
    modifies out
    ensures op == base + |LiteralHeader(n0 + 1)|
    ensures out[..op] == old(out[..base]) + LiteralHeader(n0 + 1)
    ensures forall j :: op <= j < out.Length ==> out[j] == old(out[j])
  {
    hide MinimalBytes, LiteralHeader;
    LongHeader(n0);
    ghost var field := MinimalBytes(n0);
    assert field[0..] == field;
    op := base + 1;
    var n, count := n0, 0;
    ghost var start := out[..op];
    while n > 0
      invariant count <= |field| && op == base + 1 + count
      invariant field[count..] == MinimalBytes(n)
      invariant out[..op] == start + field[..count]
      invariant forall j :: op <= j < out.Length ==> out[j] == old(out[j])
      decreases n
    {
      FieldStep(field, count, n);
      assert field[..count + 1] == field[..count] + [n % 256];
      op := PutByte(out, op, n % 256);
      n := n / 256;
      count := count + 1;
    }
    assert |field[count..]| == 0;
    assert field[..count] == field;
    ghost var written := out[..op];
    assert start[..base] == old(out[..base]);
    var tag: byte := 4 * (59 + count);
    FillIn(written, start, field, base, tag);
    out[base] := tag;
    assert out[..op] == written[base := tag];
  }

  lemma FillIn(written: seq<byte>, start: seq<byte>, field: seq<byte>, base: nat, tag: byte)
    requires written == start + field && |start| == base + 1
    ensures written[base := tag] == start[..base] + ([tag] + field)
  {
  }

  /** EmitCopyLessThan64. */
  method EmitCopyLessThan64(out: array<byte>, op: nat, offset: nat, len: nat) returns (end: nat)
    requires offset < 0x1_0000 && 4 <= len <= 64
    requires op + |EncodeElement(Copy(offset, len))| <= out.Length
    modifies out
    ensures end == op + |EncodeElement(Copy(offset, len))|
    ensures out[..end] == old(out[..op]) + EncodeElement(Copy(offset, len))
    ensures forall j :: end <= j < out.Length ==> out[j] == old(out[j])
  {
    if len < 12 && offset < 2048 {
      end := PutByte(out, op, 1 + 4 * (len - 4) + 32 * (offset / 256));
      end := PutByte(out, end, offset % 256);
    } else {
      end := PutByte(out, op, 2 + 4 * (len - 1));
      end := PutByte(out, end, offset % 256);
      end := PutByte(out, end, offset / 256);
    }
  }

  /** The copies that stand for one long copy. */
  function SplitCopy(offset: nat, len: nat): seq<Element>
    decreases len
  {
    if len >= 68 then [Copy(offset, 64)] + SplitCopy(offset, len - 64)
    else if len > 64 then [Copy(offset, 60), Copy(offset, len - 60)]
    else [Copy(offset, len)]
  }

  /** Every piece has a length the tag can hold, the lengths add up, and at least one byte is saved. */
  lemma {:induction false} SplitCopyPieces(offset: nat, len: nat)
    requires offset < 0x1_0000 && len >= 4
    ensures AllEncodable(SplitCopy(offset, len))
    ensures forall e :: e in SplitCopy(offset, len) ==> e.Copy? && e.offset == offset
    ensures |EncodeAll(SplitCopy(offset, len))| <= len - 1
    decreases len
  {
    if len >= 68 {
      SplitCopyPieces(offset, len - 64);
      EncodeAllFirst(Copy(offset, 64), SplitCopy(offset, len - 64));
    } else if len > 64 {
      EncodeAllOne(Copy(offset, len - 60));
      EncodeAllFirst(Copy(offset, 60), [Copy(offset, len - 60)]);
      assert [Copy(offset, 60)] + [Copy(offset, len - 60)] == SplitCopy(offset, len);
    } else {
      EncodeAllOne(Copy(offset, len));
    }
  }

  lemma EncodeAllFirst(e: Element, es: seq<Element>)
    requires Encodable(e) && AllEncodable(es)
    ensures AllEncodable([e] + es)
    ensures EncodeAll([e] + es) == EncodeElement(e) + EncodeAll(es)
  {
    assert ([e] + es)[1..] == es;
  }

  lemma {:induction false} SplitCopyWidth(offset: nat, len: nat)
    ensures TotalWidth(SplitCopy(offset, len)) == len
    decreases len
  {
    if len >= 68 {
      SplitCopyWidth(offset, len - 64);
      assert ([Copy(offset, 64)] + SplitCopy(offset, len - 64))[1..] == SplitCopy(offset, len - 64);
    } else if len > 64 {
      assert SplitCopy(offset, len)[1..] == [Copy(offset, len - 60)];
      assert TotalWidth([Copy(offset, len - 60)]) == len - 60;
    }
  }

  /** Splitting preserves meaning: the pieces in order are one overlapped copy of the whole length. */
  lemma {:induction false} SplitCopyMeaning(out: seq<byte>, offset: nat, len: nat)
    requires 1 <= offset <= |out|
    ensures Eval(SplitCopy(offset, len), out) == Some(CopyBytes(out, offset, len))
    decreases len
  {
    hide CopyBytes, Eval;
    if len >= 68 {
      SplitCopyMeaning(CopyBytes(out, offset, 64), offset, len - 64);
      EvalFirstCopy(offset, 64, len - 64, SplitCopy(offset, len - 64), out);
    } else if len > 64 {
      EvalOne(Copy(offset, len - 60), CopyBytes(out, offset, 60));
      EvalFirstCopy(offset, 60, len - 60, [Copy(offset, len - 60)], out);
      assert [Copy(offset, 60)] + [Copy(offset, len - 60)] == SplitCopy(offset, len);
    } else {
      EvalOne(Copy(offset, len), out);
    }
  }

  lemma EvalFirstCopy(offset: nat, a: nat, b: nat, rest: seq<Element>, out: seq<byte>)
    requires 1 <= offset <= |out|
    requires Eval(rest, CopyBytes(out, offset, a)) == Some(CopyBytes(CopyBytes(out, offset, a), offset, b))
    ensures Eval([Copy(offset, a)] + rest, out) == Some(CopyBytes(out, offset, a + b))
  {
    EvalFirst(Copy(offset, a), rest, out);
    CopyInTwoPieces(out, offset, a, b);
  }

  lemma EvalFirst(e: Element, es: seq<Element>, out: seq<byte>)
    requires Reaches(e, |out|)
    ensures Eval([e] + es, out) == Eval(es, Apply(e, out))
  {
    assert ([e] + es)[1..] == es;
  }

  lemma EvalOne(e: Element, out: seq<byte>)
    requires Reaches(e, |out|)
    ensures Eval([e], out) == Some(Apply(e, out))
  {
    assert [e][1..] == [];
  }

  /** The bytes of one long copy. */
  function CopyCode(offset: nat, len: nat): (r: seq<byte>)
    requires offset < 0x1_0000 && len >= 4
    ensures |r| <= len - 1
  {
    SplitCopyPieces(offset, len);
    EncodeAll(SplitCopy(offset, len))
  }

  /** The bytes of a long copy, one piece at a time. */
  lemma CopyCodeStep(offset: nat, len: nat)
    requires offset < 0x1_0000 && len >= 4
    ensures len >= 68 ==>
              CopyCode(offset, len) == EncodeElement(Copy(offset, 64)) + CopyCode(offset, len - 64)
    ensures 64 < len < 68 ==>
              CopyCode(offset, len) == EncodeElement(Copy(offset, 60)) + CopyCode(offset, len - 60)
    ensures len <= 64 ==> CopyCode(offset, len) == EncodeElement(Copy(offset, len))
  {
    if len >= 68 {
      SplitCopyPieces(offset, len - 64);
      EncodeAllFirst(Copy(offset, 64), SplitCopy(offset, len - 64));
    } else if len > 64 {
      EncodeAllOne(Copy(offset, len - 60));
      EncodeAllFirst(Copy(offset, 60), [Copy(offset, len - 60)]);
      assert [Copy(offset, 60)] + [Copy(offset, len - 60)] == SplitCopy(offset, len);
    } else {
      EncodeAllOne(Copy(offset, len));
    }
  }

  /** EmitCopy: pieces of 64, perhaps one of 60, and a remainder of at least four bytes. */
  method EmitCopy(out: array<byte>, op: nat, offset: nat, len0: nat) returns (end: nat)
    requires offset < 0x1_0000 && len0 >= 4
    requires op + |CopyCode(offset, len0)| <= out.Length
    modifies out
    ensures end == op + |CopyCode(offset, len0)|
    ensures out[..end] == old(out[..op]) + CopyCode(offset, len0)
    ensures forall j :: end <= j < out.Length ==> out[j] == old(out[j])
  {
    hide CopyCode, EncodeElement;
    var len := len0;
    end := op;
    ghost var goal := old(out[..op]) + CopyCode(offset, len0);
    while len >= 68
      invariant len >= 4 && end <= out.Length
      invariant out[..end] + CopyCode(offset, len) == goal
      invariant forall j :: end <= j < out.Length ==> out[j] == old(out[j])
    {
      CopyCodeStep(offset, len);
      end := EmitPiece(out, end, offset, 64, CopyCode(offset, len - 64), goal);
      len := len - 64;
    }
    CopyCodeStep(offset, len);
    if len > 64 {
      end := EmitPiece(out, end, offset, 60, CopyCode(offset, len - 60), goal);
      len := len - 60;
      CopyCodeStep(offset, len);
    }
    end := EmitPiece(out, end, offset, len, [], goal);
  }

  /** One piece on the way to the goal. */
  method EmitPiece(out: array<byte>, op: nat, offset: nat, len: nat,
                   ghost rest: seq<byte>, ghost goal: seq<byte>) returns (end: nat)
    requires offset < 0x1_0000 && 4 <= len <= 64
    requires op <= out.Length && |goal| <= out.Length
    requires out[..op] + (EncodeElement(Copy(offset, len)) + rest) == goal
    modifies out
    ensures op <= end <= out.Length && out[..end] + rest == goal
    ensures forall j :: end <= j < out.Length ==> out[j] == old(out[j])
  {
    hide EncodeElement;
    end := EmitCopyLessThan64(out, op, offset, len);
  }
}
