// The meaning of a compressed stream: elements, their byte syntax, and their evaluation.

/** The Snappy stream format.  A stream body is a string of elements; an element is a run of literal
    bytes or a back-reference into the output produced so far.  This module gives the syntax
    (sections 2.1 and 2.2 of the Snappy compressed format description) and the meaning, independently
    of how the compressor and the decoders go about it. */
module Format {
  import opened Bytes

  datatype Option<+T> = None | Some(value: T)

  datatype Element = Literal(bytes: seq<byte>) | Copy(offset: nat, len: nat)

  // ---------------------------------------------------------------------------------------------
  // Meaning
  // ---------------------------------------------------------------------------------------------

  /** Byte-by-byte copy: each byte read may be one that the same copy wrote. */
  function CopyBytes(out: seq<byte>, offset: nat, len: nat): (r: seq<byte>)
    requires 1 <= offset <= |out|
    ensures |r| == |out| + len
    ensures r[..|out|] == out
    decreases len
  {
    if len == 0 then out
    else
      var r := CopyBytes(out + [out[|out| - offset]], offset, len - 1);
      assert r[..|out|] == r[..|out| + 1][..|out|];
      r
  }

  /** Can the element be evaluated after n bytes of output? */
  predicate Reaches(e: Element, n: nat) {
    e.Copy? ==> 1 <= e.offset <= n
  }

  function Apply(e: Element, out: seq<byte>): seq<byte>
    requires Reaches(e, |out|)
  {
    match e
    case Literal(bytes) => out + bytes
    case Copy(offset, len) => CopyBytes(out, offset, len)
  }

  function Width(e: Element): nat {
    match e
    case Literal(bytes) => |bytes|
    case Copy(_, len) => len
  }

  /** The total length of the output of a list of elements. */
  function TotalWidth(es: seq<Element>): nat {
    if es == [] then 0 else Width(es[0]) + TotalWidth(es[1..])
  }

  /** The output of a list of elements after the history `out`; None when a copy reaches before
      the start of the history or has offset zero. */
  function Eval(es: seq<Element>, out: seq<byte>): Option<seq<byte>> {
    if es == [] then Some(out)
    else if Reaches(es[0], |out|) then Eval(es[1..], Apply(es[0], out))
    else None
  }

  /** A copy makes every new byte equal to the one `offset` places before it... */
  lemma {:induction false} CopyIsPeriodic(out: seq<byte>, offset: nat, len: nat, j: nat)
    requires 1 <= offset <= |out| <= j < |out| + len
    ensures CopyBytes(out, offset, len)[j] == CopyBytes(out, offset, len)[j - offset]
    decreases len
  {
    var next := out + [out[|out| - offset]];
    var r := CopyBytes(next, offset, len - 1);
    if j == |out| {
      assert r[..|next|] == next;
      assert r[j] == r[..|next|][j] == next[j];
      assert r[j - offset] == r[..|next|][j - offset] == next[j - offset];
    } else {
      CopyIsPeriodic(next, offset, len - 1, j);
    }
  }

  /** ... and is the only extension of the history that does. */
  lemma {:induction false} CopyIsUnique(out: seq<byte>, offset: nat, len: nat, r: seq<byte>)
    requires 1 <= offset <= |out|
    requires |r| == |out| + len && r[..|out|] == out
    requires forall j :: |out| <= j < |r| ==> r[j] == r[j - offset]
    ensures r == CopyBytes(out, offset, len)
    decreases len
  {
    if len == 0 {
    } else {
      var next := out + [out[|out| - offset]];
      assert r[|out| - offset] == r[..|out|][|out| - offset];
      assert r[..|next|] == next;
      CopyIsUnique(next, offset, len - 1, r);
    }
  }

  lemma {:induction false} CopyInTwoPieces(out: seq<byte>, offset: nat, a: nat, b: nat)
    requires 1 <= offset <= |out|
    ensures CopyBytes(CopyBytes(out, offset, a), offset, b) == CopyBytes(out, offset, a + b)
    decreases a
  {
    if a == 0 {
    } else {
      CopyInTwoPieces(out + [out[|out| - offset]], offset, a - 1, b);
    }
  }

  /** A copy whose source lies inside `out` does not see what precedes `out`. */
  lemma {:induction false} CopyIsLocal(prior: seq<byte>, out: seq<byte>, offset: nat, len: nat)
    requires 1 <= offset <= |out|
    ensures CopyBytes(prior + out, offset, len) == prior + CopyBytes(out, offset, len)
    decreases len
  {
    if len == 0 {
    } else {
      var b := out[|out| - offset];
      assert (prior + out)[|prior + out| - offset] == b;
      assert (prior + out) + [b] == prior + (out + [b]);
      CopyIsLocal(prior, out + [b], offset, len - 1);
    }
  }

  lemma {:induction false} EvalConcat(es: seq<Element>, fs: seq<Element>, out: seq<byte>)
    ensures Eval(es + fs, out) ==
            match Eval(es, out)
            case None => None
            case Some(mid) => Eval(fs, mid)
    decreases |es|
  {
    if es == [] {
      assert es + fs == fs;
    } else {
      assert (es + fs)[0] == es[0] && (es + fs)[1..] == es[1..] + fs;
      if Reaches(es[0], |out|) {
        EvalConcat(es[1..], fs, Apply(es[0], out));
      }
    }
  }

  /** Elements that can be evaluated on their own give the same bytes after any prior output. */
  lemma {:induction false} EvalIsLocal(es: seq<Element>, prior: seq<byte>, out: seq<byte>)
    requires Eval(es, out).Some?
    ensures Eval(es, prior + out) == Some(prior + Eval(es, out).value)
    decreases |es|
  {
    if es == [] {
    } else {
      match es[0] {
        case Literal(bytes) => assert (prior + out) + bytes == prior + (out + bytes);
        case Copy(offset, len) => CopyIsLocal(prior, out, offset, len);
      }
      EvalIsLocal(es[1..], prior, Apply(es[0], out));
    }
  }

  // ---------------------------------------------------------------------------------------------
  // Syntax
  // ---------------------------------------------------------------------------------------------

  /** The number of bytes between the tag byte and the literal data, or after the tag of a copy. */
  function ExtraBytes(tag: byte): (n: nat)
    ensures n <= 4
  {
    match tag % 4
    case 0 => if tag / 4 < 60 then 0 else tag / 4 - 59
    case 1 => 1
    case 2 => 2
    case _ => 4
  }

  /** The length of a literal with this tag and this length field. */
  function LiteralLength(tag: byte, field: nat): nat {
    if tag / 4 < 60 then tag / 4 + 1 else field + 1
  }

  /** The copy with this tag (of type 1, 2 or 3) and this trailing field. */
  function CopyElement(tag: byte, field: nat): Element {
    if tag % 4 == 1 then Copy(tag / 32 * 256 + field, tag / 4 % 8 + 4)
    else Copy(field, tag / 4 + 1)
  }

  /** How a stream starts: with a whole element of `size` bytes, or with an element that it cuts
      short.  A literal of 2^32 bytes, whose length field is at its maximum, is told apart because
      32-bit arithmetic cannot express its length. */
  datatype Start = Whole(e: Element, size: nat) | CutLiteral | CutCopy | HugeLiteral

  function ParseElement(s: seq<byte>): (p: Start)
    requires s != []
    ensures p.Whole? ==> 1 <= p.size <= |s|
    ensures p.HugeLiteral? ==> 5 <= |s|
  {
    var tag, extra := s[0], ExtraBytes(s[0]);
    if |s| < 1 + extra then
      if tag % 4 == 0 then CutLiteral else CutCopy
    else
      var field := LittleEndian(s[1..1 + extra]);
      if tag % 4 != 0 then Whole(CopyElement(tag, field), 1 + extra)
      else
        var len := LiteralLength(tag, field);
        if 1 + extra + len <= |s| then Whole(Literal(s[1 + extra..1 + extra + len]), 1 + extra + len)
        else if len == 0x1_0000_0000 then
          assert extra == 4 by {
            LittleEndianBound(s[1..1 + extra]);
            assert Pow256(1) == 0x100 && Pow256(2) == 0x1_0000 && Pow256(3) == 0x100_0000;
          }
          HugeLiteral
        else CutLiteral
  }

  /** Split a stream into elements; None when it does not consist of complete elements. */
  function Parse(s: seq<byte>): Option<seq<Element>>
    decreases |s|
  {
    if s == [] then Some([])
    else match ParseElement(s)
      case Whole(e, size) =>
        (match Parse(s[size..])
         case Some(es) => Some([e] + es)
         case None => None)
      case _ => None
  }

  // ---------------------------------------------------------------------------------------------
  // Encoding
  // ---------------------------------------------------------------------------------------------

  /** The bytes of n, least significant first, with no trailing zero byte. */
  function MinimalBytes(n: nat): (r: seq<byte>)
    ensures LittleEndian(r) == n
    ensures |r| > 0 <==> n > 0
  {
    if n == 0 then [] else [n % 256] + MinimalBytes(n / 256)
  }

  lemma {:induction false} MinimalBytesLength(n: nat, k: nat)
    requires n < Pow256(k)
    ensures |MinimalBytes(n)| <= k
  {
    if n == 0 {
    } else {
      assert k > 0;
      MinimalBytesLength(n / 256, k - 1);
    }
  }

  /** The elements the encoder can write. */
  predicate Encodable(e: Element) {
    match e
    case Literal(bytes) => 1 <= |bytes| <= 0x1_0000_0000
    case Copy(offset, len) => offset < 0x1_0000 && 4 <= len <= 64
  }

  function LiteralHeader(len: nat): (r: seq<byte>)
    requires 1 <= len <= 0x1_0000_0000
    ensures 1 <= |r| <= 5
  {
    var n := len - 1;
    if n < 60 then [4 * n]
    else
      assert |MinimalBytes(n)| <= 4 by {
        assert Pow256(2) == 0x1_0000;
        assert Pow256(4) == 0x1_0000_0000;
        MinimalBytesLength(n, 4);
      }
      [4 * (59 + |MinimalBytes(n)|)] + MinimalBytes(n)
  }

  function EncodeElement(e: Element): (r: seq<byte>)
    requires Encodable(e)
    ensures r != []
  {
    match e
    case Literal(bytes) => LiteralHeader(|bytes|) + bytes
    case Copy(offset, len) =>
      if len < 12 && offset < 2048 then
        [1 + 4 * (len - 4) + 32 * (offset / 256), offset % 256]
      else
        [2 + 4 * (len - 1), offset % 256, offset / 256]
  }

  predicate AllEncodable(es: seq<Element>) {
    forall e :: e in es ==> Encodable(e)
  }

  function EncodeAll(es: seq<Element>): seq<byte>
    requires AllEncodable(es)
  {
    if es == [] then [] else EncodeElement(es[0]) + EncodeAll(es[1..])
  }

  lemma {:induction false} EncodeAllConcat(es: seq<Element>, fs: seq<Element>)
    requires AllEncodable(es) && AllEncodable(fs)
    ensures AllEncodable(es + fs)
    ensures EncodeAll(es + fs) == EncodeAll(es) + EncodeAll(fs)
    decreases |es|
  {
    if es == [] {
      assert es + fs == fs;
    } else {
      assert (es + fs)[0] == es[0] && (es + fs)[1..] == es[1..] + fs;
      EncodeAllConcat(es[1..], fs);
    }
  }

  lemma EncodeAllOne(e: Element)
    requires Encodable(e)
    ensures AllEncodable([e]) && EncodeAll([e]) == EncodeElement(e)
  {
    assert [e][1..] == [];
  }

  /** Reading back a literal gives that literal and the rest of the stream. */
  lemma {:induction false} LiteralRoundTrip(bytes: seq<byte>, rest: seq<byte>)
    requires 1 <= |bytes| <= 0x1_0000_0000
    ensures ParseElement(EncodeElement(Literal(bytes)) + rest)
         == Whole(Literal(bytes), |EncodeElement(Literal(bytes))|)
  {
    var n := |bytes| - 1;
    var header := LiteralHeader(|bytes|);
    var s := EncodeElement(Literal(bytes)) + rest;
    assert s == header + (bytes + rest);
    if n >= 60 {
      var field := MinimalBytes(n);
      assert s[1..1 + |field|] == field;
      assert s[0] / 4 == 59 + |field|;
    } else {
      assert s[1..1] == [];
    }
    assert s[|header|..|header| + |bytes|] == bytes;
  }

  lemma ShortCopyRoundTrip(offset: nat, len: nat, rest: seq<byte>)
    requires offset < 2048 && 4 <= len < 12
    ensures ParseElement(EncodeElement(Copy(offset, len)) + rest) == Whole(Copy(offset, len), 2)
  {
    var tag: byte := 1 + 4 * (len - 4) + 32 * (offset / 256);
    var s := [tag, offset % 256] + rest;
    assert s[1..2] == [offset % 256];
    LittleEndianShort(offset % 256, 0);
    assert tag / 4 == len - 4 + 8 * (offset / 256) && tag % 4 == 1;
    assert tag / 4 % 8 == len - 4 && tag / 32 == offset / 256;
    assert CopyElement(tag, offset % 256) == Copy(offset, len);
  }

  lemma LongCopyRoundTrip(offset: nat, len: nat, rest: seq<byte>)
    requires offset < 0x1_0000 && 4 <= len <= 64
    requires !(len < 12 && offset < 2048)
    ensures ParseElement(EncodeElement(Copy(offset, len)) + rest) == Whole(Copy(offset, len), 3)
  {
    var tag: byte := 2 + 4 * (len - 1);
    var s := [tag, offset % 256, offset / 256] + rest;
    assert s[1..3] == [offset % 256, offset / 256];
    LittleEndianShort(offset % 256, offset / 256);
    assert tag / 4 == len - 1 && tag % 4 == 2;
    assert CopyElement(tag, offset) == Copy(offset, len);
  }

  lemma CopyRoundTrip(offset: nat, len: nat, rest: seq<byte>)
    requires offset < 0x1_0000 && 4 <= len <= 64
    ensures ParseElement(EncodeElement(Copy(offset, len)) + rest)
         == Whole(Copy(offset, len), |EncodeElement(Copy(offset, len))|)
  {
    if len < 12 && offset < 2048 {
      ShortCopyRoundTrip(offset, len, rest);
    } else {
      LongCopyRoundTrip(offset, len, rest);
    }
  }

  /** Printing any list of elements and parsing the result gives the list back. */
  lemma {:induction false} ParseEncode(es: seq<Element>)
    requires AllEncodable(es)
    ensures Parse(EncodeAll(es)) == Some(es)
    decreases |es|
  {
    if es == [] {
    } else {
      var code, rest := EncodeElement(es[0]), EncodeAll(es[1..]);
      match es[0] {
        case Literal(bytes) => LiteralRoundTrip(bytes, rest);
        case Copy(offset, len) => CopyRoundTrip(offset, len, rest);
      }
      assert (code + rest)[|code|..] == rest;
      ParseEncode(es[1..]);
      assert [es[0]] + es[1..] == es;
    }
  }
}
