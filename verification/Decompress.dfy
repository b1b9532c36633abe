// The optimised decoder: tag table, scratch tail and overshooting writer.

module Decompress {
  import opened Bytes
  import opened Format
  import opened Status
  import Varint
  import opened TagTable
  import opened DecodeSpec
  import opened Writer

  // ---------------------------------------------------------------------------------------------
  // The input cursor
  // ---------------------------------------------------------------------------------------------

  // The decoder reads from `buf`, which is first the source and later the five-byte scratch buffer,
  // at `pos`; `endMinus5` is five less than the end of the data in `buf`.

  /** The bytes still to be read; none when a truncated element has moved the cursor past the end. */
  function Remaining(buf: seq<byte>, pos: nat, endMinus5: int): seq<byte>
    requires endMinus5 + 5 <= |buf|
  {
    if pos < endMinus5 + 5 then buf[pos..endMinus5 + 5] else []
  }

  /** At the head of the loop there is a tag to read, and four more bytes that a trailer load may
      touch.  Once the tail has been moved they are those of the scratch buffer, stale ones included. */
  ghost predicate CursorOk(buf: seq<byte>, pos: nat, endMinus5: int, held: Scratch) {
    && pos < endMinus5 + 5 <= |buf| && pos + 5 <= |buf|
    && var rest := Remaining(buf, pos, endMinus5);
       Fill(rest, held) == held && Readable(rest, held)[..5] == buf[pos..pos + 5]
  }

  lemma CursorInBuffer(buf: seq<byte>, pos: nat, endMinus5: int, held: Scratch)
    requires CursorOk(buf, pos, endMinus5, held)
    ensures pos < endMinus5 + 5 <= |buf| && pos + 5 <= |buf|
    ensures |Remaining(buf, pos, endMinus5)| == endMinus5 + 5 - pos
  {
  }

  /** LOOP_COND: when fewer than six bytes are left they move to the front of the scratch buffer, whose
      other bytes keep their old values. */
  method LoopCond(buf: seq<byte>, pos: nat, endMinus5: int, scratch: array<byte>)
    returns (done: bool, buf': seq<byte>, pos': nat, endMinus5': int)
    requires scratch.Length == 5 && endMinus5 + 5 <= |buf|
    modifies scratch
    ensures done <==> Remaining(buf, pos, endMinus5) == []
    ensures endMinus5' + 5 <= |buf'|
    ensures scratch[..] == Fill(Remaining(buf, pos, endMinus5), old(scratch[..]))
    ensures !done ==> CursorOk(buf', pos', endMinus5', scratch[..])
    ensures !done ==> Remaining(buf', pos', endMinus5') == Remaining(buf, pos, endMinus5)
  {
    done, buf', pos', endMinus5' := false, buf, pos, endMinus5;
    if pos >= endMinus5 {
      var available := endMinus5 + 5 - pos;
      if available <= 0 {
        done := true;
        return;
      }
      ghost var held := scratch[..];
      MemCopy(buf, pos, scratch, 0, available);
      assert scratch[..available] == buf[pos..pos + available];
      assert scratch[available..] == held[available..];
      assert scratch[..] == scratch[..available] + scratch[available..];
      buf', pos', endMinus5' := scratch[..], 0, available - 5;
      assert buf'[0..available] == scratch[..available];
    } else {
      assert Remaining(buf, pos, endMinus5)[..5] == buf[pos..pos + 5];
    }
  }

  // ---------------------------------------------------------------------------------------------
  // Progress: what is left to do decides the outcome
  // ---------------------------------------------------------------------------------------------

  /** Decoding the rest from here gives the outcome that is to be reported, and reads nothing behind the
      source. */
  ghost predicate OnCourse(goal: Outcome, rest: seq<byte>, held: Scratch, out: seq<byte>, cap: nat) {
    Decode(rest, held, out, cap) == goal && goal != OverRead && |rest| < 0x1_0000_0000
  }

  /** The same after the element e, unless e has a fault. */
  ghost predicate Continues(goal: Outcome, e: Element, rest: seq<byte>, held: Scratch, out: seq<byte>, cap: nat) {
    if !Reaches(e, |out|) then goal == Malformed
    else if |out| + Width(e) > cap then goal == Overrun
    else OnCourse(goal, rest, held, Apply(e, out), cap)
  }

  /** The element that is next decides the outcome or is taken off. */
  lemma DecodeStep(goal: Outcome, rest: seq<byte>, held: Scratch, out: seq<byte>, cap: nat)
    requires rest != [] && Fill(rest, held) == held && OnCourse(goal, rest, held, out, cap)
    ensures if Refused(rest) then goal == Malformed else
            match ParseElement(rest)
            case Whole(e, size) => Continues(goal, e, rest[size..], held, out, cap)
            case CutCopy => Continues(goal, CopyElement(rest[0], FieldAt(rest, held)), [], held, out, cap)
            case HugeLiteral => OnCourse(goal, rest[5..], held, out, cap)
            case CutLiteral =>
              var length := LengthWord(rest[0], FieldAt(rest, held));
              if |rest| - 1 - ExtraBytes(rest[0]) < Int32(length) then goal == Malformed
              else |out| + length > cap && goal == Overrun
  {
    hide ParseElement, CopyElement, LengthWord, Refused;
    if ParseElement(rest) == CutCopy {
      var e := CopyElement(rest[0], FieldAt(rest, held));
      RunFirst(e, [], out, cap);
      assert [e] + [] == [e];
    }
  }

  /** The conversion of a count of bytes to a signed 32-bit integer. */
  function Signed(n: int): int {
    Int32(n % 0x1_0000_0000)
  }

  lemma SignedSmall(n: int)
    requires -0x8000_0000 <= n < 0x1_0000_0000
    ensures Signed(n) == if n < 0x8000_0000 then n else n - 0x1_0000_0000
  {
  }

  // ---------------------------------------------------------------------------------------------
  // The element that is next
  // ---------------------------------------------------------------------------------------------

  /** A copy, cut short or not, decides the outcome or is taken off. */
  lemma CopyVerdict(goal: Outcome, rest: seq<byte>, held: Scratch, out: seq<byte>, cap: nat,
                    n: nat, after: seq<byte>)
    requires rest != [] && Fill(rest, held) == held && rest[0] % 4 != 0
    requires OnCourse(goal, rest, held, out, cap) && n == 1 + ExtraBytes(rest[0])
    requires if n <= |rest| then after == rest[n..] else after == []
    ensures Continues(goal, CopyElement(rest[0], FieldAt(rest, held)), after, held, out, cap) && |after| < |rest|
  {
    FieldInside(rest, held);
    DecodeStep(goal, rest, held, out, cap);
    hide LittleEndian, CopyElement, FieldAt, Continues, OnCourse;
  }

  /** The signed test refuses literals that are cut short, and those behind which a count has turned
      negative; once it is passed, the bounds test on the output decides, and nothing is copied from
      beyond the input.  The data and what follows it are given names of their own. */
  lemma LiteralVerdict(goal: Outcome, rest: seq<byte>, held: Scratch, out: seq<byte>, cap: nat, length: uint32,
                       n: nat, bytes: seq<byte>, after: seq<byte>)
    requires rest != [] && Fill(rest, held) == held && rest[0] % 4 == 0
    requires OnCourse(goal, rest, held, out, cap) && |out| <= cap
    requires length == LengthWord(rest[0], FieldAt(rest, held)) && n == 1 + ExtraBytes(rest[0])
    requires n + length <= |rest| ==> bytes == rest[n..n + length] && after == rest[n + length..]
    ensures if Signed(|rest| - n) < Int32(length)
            then goal == Malformed && (ParseElement(rest) == CutLiteral || Refused(rest))
            else if |out| + length > cap then goal == Overrun
            else n + length <= |rest| && OnCourse(goal, after, held, out + bytes, cap) && |after| < |rest|
  {
    hide LittleEndian, FieldAt, Readable, Fill, OnCourse, Signed;
    FieldInside(rest, held);
    LengthIn32Bits(rest, held);
    SizeOnCourse(goal, rest, held, out, cap);
    DecodeStep(goal, rest, held, out, cap);
    SignedSmall(|rest| - n);
    hide LengthWord, LiteralLength, ExtraBytes;
    match ParseElement(rest)
    case Whole(_, _) =>
    case HugeLiteral => assert out + [] == out;
    case CutLiteral =>
  }

  lemma SizeOnCourse(goal: Outcome, rest: seq<byte>, held: Scratch, out: seq<byte>, cap: nat)
    requires OnCourse(goal, rest, held, out, cap)
    ensures |rest| < 0x1_0000_0000
  {
  }

  // ---------------------------------------------------------------------------------------------
  // One element
  // ---------------------------------------------------------------------------------------------

  /** The number in the bytes after the tag at pos. */
  function LoadedField(buf: seq<byte>, pos: nat): nat
    requires pos + 5 <= |buf|
  {
    LittleEndian(buf[pos + 1..pos + 1 + ExtraBytes(buf[pos])])
  }

  /** The field loaded at the cursor is the field of the element there, stale bytes included. */
  lemma FieldAtCursor(buf: seq<byte>, pos: nat, endMinus5: int, held: Scratch)
    requires CursorOk(buf, pos, endMinus5, held)
    ensures var rest := Remaining(buf, pos, endMinus5);
            && pos < endMinus5 + 5 <= |buf| && pos + 5 <= |buf|
            && rest != [] && rest[0] == buf[pos] && |rest| == endMinus5 + 5 - pos
            && Fill(rest, held) == held
            && FieldAt(rest, held) == LoadedField(buf, pos)
  {
    hide LittleEndian;
    var rest, extra := Remaining(buf, pos, endMinus5), ExtraBytes(buf[pos]);
    assert Readable(rest, held)[1..1 + extra] == Readable(rest, held)[..5][1..1 + extra];
    SliceOfSlice(buf, pos, pos + 5, 1, 1 + extra);
  }

  /** The bytes at p, and what is left behind them. */
  lemma BehindCursor(buf: seq<byte>, pos: nat, endMinus5: int, n: nat, p: nat, len: nat)
    requires pos < endMinus5 + 5 <= |buf| && p == pos + n
    ensures var rest := Remaining(buf, pos, endMinus5);
            if n + len <= |rest| then
              && p + len <= endMinus5 + 5
              && buf[p..p + len] == rest[n..n + len]
              && Remaining(buf, p + len, endMinus5) == rest[n + len..]
            else Remaining(buf, p + len, endMinus5) == []
  {
    var rest := Remaining(buf, pos, endMinus5);
    if n + len <= |rest| {
      SliceOfSlice(buf, pos, endMinus5 + 5, n, n + len);
      SliceOfSlice(buf, pos, endMinus5 + 5, n + len, |rest|);
    }
  }

  /** How the bytes at the cursor determine the copy there and what comes of it. */
  lemma CopyAtCursor(goal: Outcome, buf: seq<byte>, pos: nat, endMinus5: int, held: Scratch,
                     out: seq<byte>, cap: nat)
    requires CursorOk(buf, pos, endMinus5, held) && buf[pos] % 4 != 0
    requires OnCourse(goal, Remaining(buf, pos, endMinus5), held, out, cap)
    ensures var next := pos + 1 + ExtraBytes(buf[pos]);
            var e := CopyElement(buf[pos], LoadedField(buf, pos));
            && Continues(goal, e, Remaining(buf, next, endMinus5), held, out, cap)
            && |Remaining(buf, next, endMinus5)| < |Remaining(buf, pos, endMinus5)|
  {
    hide *;
    FieldAtCursor(buf, pos, endMinus5, held);
    BehindCursor(buf, pos, endMinus5, 1 + ExtraBytes(buf[pos]), pos + 1 + ExtraBytes(buf[pos]), 0);
    CopyVerdict(goal, Remaining(buf, pos, endMinus5), held, out, cap, 1 + ExtraBytes(buf[pos]),
                Remaining(buf, pos + 1 + ExtraBytes(buf[pos]), endMinus5));
  }

  /** Offset and length of the copy at pos, by way of the table and one masked load. */
  method LoadCopy(buf: seq<byte>, pos: nat) returns (trailer: uint32, length: nat, next: nat)
    requires pos + 5 <= |buf| && buf[pos] % 4 != 0
    ensures next == pos + 1 + ExtraBytes(buf[pos]) && 1 <= length <= 64
    ensures Copy(trailer, length) == CopyElement(buf[pos], LoadedField(buf, pos))
  {
    hide CharTable, LittleEndian, CopyElement, Load32, ExtraBytes, LengthField, OffsetField, ExtraField,
         GetUnalignedLe, Pow256;
    var opcode := buf[pos];
    var opword := CharTable(opcode);
    ghost var field := LittleEndian(buf[pos + 1..pos + 1 + ExtraBytes(opcode)]);
    TableIsFormat(opcode, field);
    LittleEndianBound(buf[pos + 1..pos + 1 + ExtraBytes(opcode)]);
    var extraBytes := ExtraField(opword);
    MaskedLoad(buf, pos + 1, extraBytes);
    trailer := GetUnalignedLe(buf, pos + 1, extraBytes);
    length := LengthField(opword);
    next := pos + 1 + extraBytes;
    trailer := trailer + OffsetField(opword);
  }

  /** The copy branch of the loop. */
  method DecodeCopy(writer: SnappyArrayWriter, buf: seq<byte>, pos: nat, endMinus5: int,
                    ghost held: Scratch, ghost goal: Outcome)
    returns (ret: int, next: nat)
    requires writer.Valid() && CursorOk(buf, pos, endMinus5, held) && buf[pos] % 4 != 0
    requires OnCourse(goal, Remaining(buf, pos, endMinus5), held, writer.Output(), writer.opLimit)
    modifies writer`op, writer.buf
    ensures writer.Valid() && next > pos
    ensures if ret == E_OK
            then && |Remaining(buf, next, endMinus5)| < |Remaining(buf, pos, endMinus5)|
                 && OnCourse(goal, Remaining(buf, next, endMinus5), held, writer.Output(), writer.opLimit)
            else ret < 0 && Reports(goal, ret, [])
    ensures forall j :: writer.opLimit <= j < writer.buf.Length ==> writer.buf[j] == old(writer.buf[j])
  {
    hide CopyBytes, OnCourse, ExtraBytes, CursorOk, Remaining, CopyElement, LoadedField,
         SnappyArrayWriter.Output;
    CursorInBuffer(buf, pos, endMinus5, held);
    CopyAtCursor(goal, buf, pos, endMinus5, held, writer.Output(), writer.opLimit);
    var trailer, length;
    trailer, length, next := LoadCopy(buf, pos);
    ret := writer.AppendFromSelf(trailer, length);
  }

  /** How the bytes at the cursor determine the literal there and what comes of it. */
  lemma LiteralAtCursor(goal: Outcome, buf: seq<byte>, pos: nat, endMinus5: int, held: Scratch,
                        out: seq<byte>, cap: nat, p: nat, length: uint32)
    requires CursorOk(buf, pos, endMinus5, held) && buf[pos] % 4 == 0 && |out| <= cap
    requires OnCourse(goal, Remaining(buf, pos, endMinus5), held, out, cap)
    requires p == pos + 1 + ExtraBytes(buf[pos])
    requires length == LengthWord(buf[pos], LoadedField(buf, pos))
    ensures if Signed(endMinus5 + 5 - p) < Int32(length) then goal == Malformed
            else if |out| + length > cap then goal == Overrun
            else && p + length <= endMinus5 + 5
                 && OnCourse(goal, Remaining(buf, p + length, endMinus5), held, out + buf[p..p + length], cap)
                 && |Remaining(buf, p + length, endMinus5)| < |Remaining(buf, pos, endMinus5)|
  {
    hide *;
    FieldAtCursor(buf, pos, endMinus5, held);
    var n, rest := 1 + ExtraBytes(buf[pos]), Remaining(buf, pos, endMinus5);
    BehindCursor(buf, pos, endMinus5, n, p, length);
    var bytes := if p + length <= |buf| then buf[p..p + length] else [];
    LiteralVerdict(goal, rest, held, out, cap, length, n, bytes, Remaining(buf, p + length, endMinus5));
  }

  /** The parts of a literal tag. */
  lemma LiteralTag(tag: byte, field: nat)
    requires tag % 4 == 0
    ensures tag / 4 + 1 <= 60 ==>
              ExtraBytes(tag) == 0 && LengthWord(tag, field) == tag / 4 + 1 == Int32(LengthWord(tag, field))
    ensures tag / 4 + 1 > 60 ==>
              ExtraBytes(tag) == tag / 4 + 1 - 60 && LengthWord(tag, field) == (field + 1) % 0x1_0000_0000
  {
  }

  /** A length field of one to four bytes. */
  method LoadLength(buf: seq<byte>, pos: nat, extraBytes: nat) returns (length: uint32, p: nat)
    requires pos + 5 <= |buf| && ExtraBytes(buf[pos]) == extraBytes
    ensures p == pos + 1 + extraBytes && length == (LoadedField(buf, pos) + 1) % 0x1_0000_0000
  {
    hide LittleEndian, GetUnalignedLe, ExtraBytes;
    MaskedLoad(buf, pos + 1, extraBytes);
    length := (GetUnalignedLe(buf, pos + 1, extraBytes) + 1) % 0x1_0000_0000;
    p := pos + 1 + extraBytes;
  }

  /** The literal branch of the loop. */
  method DecodeLiteral(writer: SnappyArrayWriter, buf: seq<byte>, pos: nat, endMinus5: int,
                       ghost held: Scratch, ghost goal: Outcome)
    returns (ret: int, next: nat)
    requires writer.Valid() && CursorOk(buf, pos, endMinus5, held) && buf[pos] % 4 == 0
    requires OnCourse(goal, Remaining(buf, pos, endMinus5), held, writer.Output(), writer.opLimit)
    modifies writer`op, writer.buf
    ensures writer.Valid() && next > pos
    ensures if ret == E_OK
            then && |Remaining(buf, next, endMinus5)| < |Remaining(buf, pos, endMinus5)|
                 && OnCourse(goal, Remaining(buf, next, endMinus5), held, writer.Output(), writer.opLimit)
            else ret < 0 && Reports(goal, ret, [])
    ensures forall j :: writer.opLimit <= j < writer.buf.Length ==> writer.buf[j] == old(writer.buf[j])
  {
    hide OnCourse, CursorOk, Remaining, LoadedField, LengthWord, ExtraBytes, Int32, Signed,
         SnappyArrayWriter.Output;
    CursorInBuffer(buf, pos, endMinus5, held);
    SizeOnCourse(goal, Remaining(buf, pos, endMinus5), held, writer.Output(), writer.opLimit);
    SignedSmall(endMinus5 + 5 - (pos + 1));
    LiteralTag(buf[pos], LoadedField(buf, pos));
    var opcode := buf[pos];
    var p := pos + 1;
    var length: uint32 := opcode / 4 + 1;
    var available := Signed(endMinus5 + 5 - p);
    if length <= 16 && available >= 16 {
      LiteralAtCursor(goal, buf, pos, endMinus5, held, writer.Output(), writer.opLimit, p, length);
      ret := writer.AppendFastPath(buf, p, length);
      next := p + length;
      return;
    }
    if length > 60 {
      length, p := LoadLength(buf, pos, length - 60);
      available := Signed(endMinus5 + 5 - p);
    }
    LiteralAtCursor(goal, buf, pos, endMinus5, held, writer.Output(), writer.opLimit, p, length);
    if available < Int32(length) {
      return E_DATA_MALFORMED, p;
    }
    ret := writer.Append(buf, p, length);
    next := p + length;
  }

  // ---------------------------------------------------------------------------------------------
  // The loop and the entry points
  // ---------------------------------------------------------------------------------------------

  /** csnappy_decompress_noheader, where `stale` is what the uninitialised scratch buffer holds.  For
      every source that does not make it read behind its end, the return code and the output are those of
      the specification; on sources that split into complete elements they are those of the reference
      evaluator, unless the first literal is refused; and nothing is stored at or beyond dstLen. */
  method DecompressNoHeader(src: seq<byte>, dst: array<byte>, dstLen: uint32, stale: Scratch)
    returns (ret: int, produced: nat)
    requires |src| < 0x1_0000_0000 && dstLen <= dst.Length
    requires Decode(src, stale, [], dstLen) != OverRead
    modifies dst
    ensures produced <= dstLen && Reports(Decode(src, stale, [], dstLen), ret, dst[..produced])
    ensures Parse(src).Some? ==> Reports(Expected(src, dstLen), ret, dst[..produced])
    ensures match Decode(src, stale, [], dstLen)
            case Done(r) => ret == 0 && dst[..produced] == r
            case Malformed => ret == -5
            case Overrun => ret == -3
            case OverRead => false
    ensures Refused(src) ==> ret == -5
    ensures Parse(src).Some? && !Refused(src) ==>
              var es := Parse(src).value;
              && (ret == 0 <==> Eval(es, []).Some? && TotalWidth(es) <= dstLen)
              && (ret == 0 ==> Eval(es, []) == Some(dst[..produced]))
              && (ret == -5 <==>
                  exists k :: 0 <= k < |es| && Eval(es[..k], []).Some? && TotalWidth(es[..k]) <= dstLen
                              && !Reaches(es[k], TotalWidth(es[..k])))
              && (ret == -3 <==>
                  exists k :: 0 <= k < |es| && Eval(es[..k], []).Some? && TotalWidth(es[..k]) <= dstLen
                              && Reaches(es[k], TotalWidth(es[..k])) && TotalWidth(es[..k]) + Width(es[k]) > dstLen)
    ensures forall j :: dstLen <= j < dst.Length ==> dst[j] == old(dst[j])
  {
    hide Decode, Parse, Expected, Fill, CursorOk, OnCourse, Refused, Eval, TotalWidth;
    var writer := new SnappyArrayWriter(dst, dstLen);
    var scratch := new byte[5](i requires 0 <= i < 5 => stale[i]);
    assert scratch[..] == stale;
    var buf, pos: nat, endMinus5: int := src, 0, |src| - 5;
    assert Remaining(src, 0, |src| - 5) == src;
    assert writer.Output() == [];
    ghost var goal := Decode(src, stale, [], dstLen);
    if Parse(src).Some? {
      CompleteStreams(src, stale, dstLen);
      if !Refused(src) {
        ExpectedInNumbers(src, dstLen);
      }
    }
    RefusedIsMalformed(src, stale, dstLen);
    var done;
    CourseBegins(goal, src, stale, dstLen);
    done, buf, pos, endMinus5 := LoopCond(buf, pos, endMinus5, scratch);
    while !done
      invariant writer.Valid() && writer.buf == dst && writer.opLimit == dstLen
      invariant !done ==> CursorOk(buf, pos, endMinus5, scratch[..])
      invariant endMinus5 + 5 <= |buf|
      invariant OnCourse(goal, if done then [] else Remaining(buf, pos, endMinus5), scratch[..],
                         writer.Output(), dstLen)
      invariant forall j :: dstLen <= j < dst.Length ==> dst[j] == old(dst[j])
      decreases if done then 0 else 1 + |Remaining(buf, pos, endMinus5)|
    {
      CursorInBuffer(buf, pos, endMinus5, scratch[..]);
      if buf[pos] % 4 != 0 {
        ret, pos := DecodeCopy(writer, buf, pos, endMinus5, scratch[..], goal);
      } else {
        ret, pos := DecodeLiteral(writer, buf, pos, endMinus5, scratch[..], goal);
      }
      if ret < 0 {
        return ret, 0;
      }
      CourseFilled(goal, Remaining(buf, pos, endMinus5), scratch[..], writer.Output(), dstLen);
      done, buf, pos, endMinus5 := LoopCond(buf, pos, endMinus5, scratch);
    }
    CourseEnds(goal, scratch[..], writer.Output(), dstLen);
    return E_OK, writer.op;
  }

  lemma ExpectedInNumbers(s: seq<byte>, cap: nat)
    requires Parse(s).Some? && !Refused(s)
    ensures Expected(s, cap) == Run(Parse(s).value, [], cap)
    ensures var es := Parse(s).value;
            && (Expected(s, cap).Done? <==> Eval(es, []).Some? && TotalWidth(es) <= cap)
            && (Expected(s, cap).Done? ==> Eval(es, []) == Some(Expected(s, cap).out))
            && (Expected(s, cap) == Malformed <==>
                exists k :: 0 <= k < |es| && Eval(es[..k], []).Some? && TotalWidth(es[..k]) <= cap
                            && !Reaches(es[k], TotalWidth(es[..k])))
            && (Expected(s, cap) == Overrun <==>
                exists k :: 0 <= k < |es| && Eval(es[..k], []).Some? && TotalWidth(es[..k]) <= cap
                            && Reaches(es[k], TotalWidth(es[..k])) && TotalWidth(es[..k]) + Width(es[k]) > cap)
  {
    hide Run, Eval, TotalWidth, Parse, Refused;
    RunInNumbers(Parse(s).value, cap);
  }

  lemma RefusedIsMalformed(s: seq<byte>, stale: Scratch, cap: nat)
    ensures Refused(s) ==> Decode(s, stale, [], cap) == Malformed
  {
  }

  lemma CourseBegins(goal: Outcome, src: seq<byte>, stale: Scratch, cap: nat)
    requires |src| < 0x1_0000_0000 && goal == Decode(src, stale, [], cap) != OverRead
    ensures OnCourse(goal, src, Fill(src, stale), [], cap)
  {
    DecodeFilled(src, stale, [], cap);
  }

  lemma CourseFilled(goal: Outcome, rest: seq<byte>, held: Scratch, out: seq<byte>, cap: nat)
    requires OnCourse(goal, rest, held, out, cap)
    ensures OnCourse(goal, rest, Fill(rest, held), out, cap)
  {
    DecodeFilled(rest, held, out, cap);
  }

  lemma CourseEnds(goal: Outcome, held: Scratch, out: seq<byte>, cap: nat)
    requires OnCourse(goal, [], held, out, cap)
    ensures goal == Done(out)
  {
  }

  lemma DecodeNothing(held: Scratch, out: seq<byte>, cap: nat)
    ensures Decode([], held, out, cap) == Done(out)
  {
  }

  /** csnappy_decompress. */
  method Decompress(src: seq<byte>, dst: array<byte>, dstLen: uint32, stale: Scratch)
    returns (ret: int, ghost produced: nat)
    requires |src| < 0x1_0000_0000 && dstLen <= dst.Length
    requires match Varint.ReadHeader(src, 5)
             case None => true
             case Some(Prefix(v, n)) =>
               v % 0x1_0000_0000 <= dstLen ==> Decode(src[n..], stale, [], v % 0x1_0000_0000) != OverRead
    modifies dst
    ensures match Varint.ReadHeader(src, 5)
            case None => ret == -1
            case Some(Prefix(v, n)) =>
              if v % 0x1_0000_0000 > dstLen then ret == -2
              else
                var cap := v % 0x1_0000_0000;
                && produced <= cap
                && Reports(Decode(src[n..], stale, [], cap), ret, dst[..produced])
                && match Decode(src[n..], stale, [], cap)
                   case Done(r) => ret == 0 && dst[..produced] == r
                   case Malformed => ret == -5
                   case Overrun => ret == -3
                   case OverRead => false
    ensures match Varint.ReadHeader(src, 5)
            case None => true
            case Some(Prefix(v, n)) =>
              var cap, body := v % 0x1_0000_0000, src[n..];
              && (cap <= dstLen && Refused(body) ==> ret == -5)
              && (cap <= dstLen && Parse(body).Some? && !Refused(body) ==>
                   var es := Parse(body).value;
                   && (ret == 0 <==> Eval(es, []).Some? && TotalWidth(es) <= cap)
                   && (ret == 0 ==> Eval(es, []) == Some(dst[..produced]))
                   && (ret == -5 <==>
                       exists k :: 0 <= k < |es| && Eval(es[..k], []).Some? && TotalWidth(es[..k]) <= cap
                                   && !Reaches(es[k], TotalWidth(es[..k])))
                   && (ret == -3 <==>
                       exists k :: 0 <= k < |es| && Eval(es[..k], []).Some? && TotalWidth(es[..k]) <= cap
                                   && Reaches(es[k], TotalWidth(es[..k]))
                                   && TotalWidth(es[..k]) + Width(es[k]) > cap))
    ensures forall j :: dstLen <= j < dst.Length ==> dst[j] == old(dst[j])
  {
    hide Decode, Parse, Refused, Eval, TotalWidth;
    produced := 0;
    var n, olen := Varint.GetUncompressedLength(src);
    if n < E_OK {
      return n, 0;
    }
    if olen > dstLen {
      return E_OUTPUT_INSUF, 0;
    }
    var m;
    ret, m := DecompressNoHeader(src[n..], dst, olen, stale);
    produced := m;
  }

  /** A stream whose header announces five bytes, and whose one byte of output is accepted. */
  lemma ShortOutputIsAccepted(b: byte, stale: Scratch)
    ensures Varint.ReadHeader([5, 0, b], 5) == Some(Varint.Prefix(5, 1))
    ensures Decode([5, 0, b][1..], stale, [], 5) == Done([b])
  {
    var s: seq<byte> := [0, b];
    assert [5, 0, b][1..] == s;
    OneByteLiteral(b, []);
    assert [0, b] + [] == s;
    hide ParseElement, Decode;
    assert [] + [b] == [b];
    WholeFirst(s, Literal([b]), 2, [], stale, [], 5);
    DecodeNothing(Fill(s, stale), [b], 5);
  }
}
