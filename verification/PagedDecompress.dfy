// The second decoder, which reads a file and drives the paged output buffer.

module PagedDecompress {
  import opened Bytes
  import opened Format
  import opened Varint
  import opened PagedOutput

  /** An input file with a read position. */
  class Source {
    const data: seq<byte>
    var pos: nat

    ghost predicate Valid()
      reads this
    {
      pos <= |data|
    }

    ghost function Rest(): seq<byte>
      requires Valid()
      reads this
    {
      data[pos..]
    }

    constructor (data: seq<byte>)
      ensures Valid() && this.data == data && pos == 0
    {
      this.data, pos := data, 0;
    }

    /** read(n): up to n bytes. */
    method Read(n: nat) returns (s: seq<byte>)
      requires Valid()
      modifies this
      ensures Valid()
      ensures n <= old(|Rest()|) ==> s == old(Rest())[..n] && Rest() == old(Rest())[n..]
      ensures n > old(|Rest()|) ==> s == old(Rest()) && Rest() == []
    {
      var end := if pos + n <= |data| then pos + n else |data|;
      s := data[pos..end];
      pos := end;
    }
  }

  /** read(1) at a known place in s. */
  method ReadByte(f: Source, ghost s: seq<byte>, ghost i: nat) returns (c: seq<byte>)
    requires f.Valid() && i <= |s| && f.Rest() == s[i..]
    modifies f
    ensures f.Valid()
    ensures i < |s| ==> c == [s[i]] && f.Rest() == s[i + 1..]
    ensures i == |s| ==> c == []
  {
    c := f.Read(1);
  }

  lemma SeventhOf(offset: nat, i: nat)
    requires offset == 7 * i
    ensures offset / 7 == i
  {
  }

  /** read_varint32; None is the ValueError.  The number is not truncated to 32 bits. */
  method ReadVarint32(f: Source) returns (v: Option<nat>)
    requires f.Valid()
    modifies f
    ensures f.Valid()
    ensures match old(ReadHeader(f.Rest(), 5))
            case None => v == None
            case Some(Prefix(n, size)) => v == Some(n) && f.Rest() == old(f.Rest())[size..]
  {
    hide Weight, ReadHeader, Continue, Accumulate, Source.Rest;
    ghost var s := f.Rest();
    var acc, offset: nat := 0, 0;
    ghost var i: nat := 0;
    assert s[0..] == s;
    ContinueStart(s);
    while true
      invariant f.Valid() && i <= |s| && i < 5 && offset == 7 * i
      invariant f.Rest() == s[i..]
      invariant ReadHeader(s, 5) == Continue(acc, i, ReadHeader(s[i..], 5 - i))
      decreases 5 - i
    {
      var c := ReadByte(f, s, i);
      if c == [] {
        HeaderTooLong(s, acc, i);
        return None;
      }
      var b := c[0];
      ContinueStep(s, acc, i);
      SeventhOf(offset, i);
      acc := Accumulate(acc, offset / 7, b);
      offset := offset + 7;
      i := i + 1;
      if b < 128 {
        break;
      }
      if offset >= 32 {
        HeaderTooLong(s, acc, i);
        return None;
      }
    }
    v := Some(acc);
  }

  /** read_le_bytes; None is the ValueError. */
  method ReadLeBytes(f: Source, n: nat) returns (v: Option<nat>)
    requires f.Valid() && 1 <= n <= 4
    modifies f
    ensures f.Valid()
    ensures v == if n <= old(|f.Rest()|) then Some(LittleEndian(old(f.Rest())[..n])) else None
    ensures v.Some? ==> f.Rest() == old(f.Rest())[n..]
    ensures |f.Rest()| <= old(|f.Rest()|)
  {
    var s := f.Read(n);
    if |s| < n {
      return None;
    }
    hide LittleEndian;
    LittleEndianUpTo4(s);
    var value: int := s[0];
    if n >= 2 {
      value := value + 0x100 * s[1] as int;
    }
    if n >= 3 {
      value := value + 0x1_0000 * s[2] as int;
    }
    if n >= 4 {
      value := value + 0x100_0000 * s[3] as int;
    }
    return Some(value);
  }

  lemma LittleEndianUpTo4(s: seq<byte>)
    requires 1 <= |s| <= 4
    ensures LittleEndian(s) == s[0] as int
        + (if |s| > 1 then 0x100 * s[1] as int else 0)
        + (if |s| > 2 then 0x1_0000 * s[2] as int else 0)
        + (if |s| > 3 then 0x100_0000 * s[3] as int else 0)
  {
    if |s| > 1 {
      LittleEndianUpTo4(s[1..]);
    }
  }

  // ---------------------------------------------------------------------------------------------
  // One element
  // ---------------------------------------------------------------------------------------------

  /** The only elements refused: copies from beyond the window. */
  predicate InWindow(e: Element, n: nat) {
    e.Copy? ==> e.offset <= Window(n)
  }

  /** The output after one element; offset zero is not refused. */
  function PagedApply(e: Element, out: seq<byte>): seq<byte>
    requires InWindow(e, |out|)
  {
    match e
    case Literal(bytes) => out + bytes
    case Copy(offset, len) => RepeatBytes(out, offset, len)
  }

  /** On the elements that the format allows it is the output that the format gives. */
  lemma PagedApplyIsApply(e: Element, out: seq<byte>)
    requires InWindow(e, |out|) && (e.Copy? ==> e.offset >= 1)
    ensures Reaches(e, |out|) && PagedApply(e, out) == Apply(e, out)
  {
    if e.Copy? {
      RepeatIsCopy(out, e.offset, e.len);
    }
  }

  /** The copy branch. */
  method DecodeCopy(f: Source, ob: OutputBuffer, c: byte) returns (ok: bool)
    requires f.Valid() && ob.Valid() && c % 4 != 0
    modifies f, ob, ob.f, ob.store
    ensures f.Valid() && ob.Valid() && |f.Rest()| <= old(|f.Rest()|)
    ensures old(|f.Rest()|) < ExtraBytes(c) ==> !ok
    ensures old(|f.Rest()|) >= ExtraBytes(c) ==>
              var e := CopyElement(c, LittleEndian(old(f.Rest())[..ExtraBytes(c)]));
              && ok == InWindow(e, old(|ob.flat|))
              && (ok ==> ob.flat == PagedApply(e, old(ob.flat)) && f.Rest() == old(f.Rest())[ExtraBytes(c)..])
  {
    hide LittleEndian, RepeatBytes, OutputBuffer.Valid;
    var length := c / 4 + 1;
    var trailer;
    if c % 4 == 1 {
      length := (length - 1) % 8 + 4;
      trailer := ReadLeBytes(f, 1);
    } else if c % 4 == 2 {
      trailer := ReadLeBytes(f, 2);
    } else {
      trailer := ReadLeBytes(f, 4);
    }
    if trailer == None {
      return false;
    }
    var offset := if c % 4 == 1 then c / 32 * 256 + trailer.value else trailer.value;
    ok := ob.RepeatChunk(length, offset);
  }

  /** The literal branch: a short read is not noticed. */
  method DecodeLiteral(f: Source, ob: OutputBuffer, c: byte) returns (ok: bool)
    requires f.Valid() && ob.Valid() && c % 4 == 0
    modifies f, ob, ob.f, ob.store
    ensures f.Valid() && ob.Valid() && |f.Rest()| <= old(|f.Rest()|)
    ensures ok == (old(|f.Rest()|) >= ExtraBytes(c))
    ensures ok ==>
              var s := old(f.Rest())[ExtraBytes(c)..];
              var len := LiteralLength(c, LittleEndian(old(f.Rest())[..ExtraBytes(c)]));
              && (len <= |s| ==> ob.flat == old(ob.flat) + s[..len] && f.Rest() == s[len..])
              && (len > |s| ==> ob.flat == old(ob.flat) + s && f.Rest() == [])
  {
    hide LittleEndian, OutputBuffer.Valid;
    ok := true;
    var length: nat := c / 4 + 1;
    ghost var s := f.Rest();
    assert s[0..] == s;
    if length > 60 {
      var field := ReadLeBytes(f, length - 60);
      if field == None {
        return false;
      }
      length := field.value + 1;
    }
    var bytes := f.Read(length);
    ob.PutBytes(bytes);
  }

  /** One round of the loop, on the element at the read position. */
  method DecodeElement(f: Source, ob: OutputBuffer) returns (ok: bool)
    requires f.Valid() && ob.Valid() && f.Rest() != []
    modifies f, ob, ob.f, ob.store
    ensures f.Valid() && ob.Valid() && |f.Rest()| < old(|f.Rest()|)
    ensures StepOf(old(f.Rest()), old(ob.flat), ok, f.Rest(), ob.flat)
    ensures var p := ParseElement(old(f.Rest()));
            p.Whole? ==> (ok <==> (p.e.Copy? ==> p.e.offset <= old(ob.NumBufferedBytes())))
  {
    hide LittleEndian, RepeatBytes, ParseElement, CopyElement, LiteralLength, ExtraBytes, OutputBuffer.Valid;
    ob.BufferedIsWindow();
    ghost var s := f.Rest();
    var t := f.Read(1);
    var c := t[0];
    assert c == s[0] && f.Rest() == s[1..];
    TagAndRest(s);
    if c % 4 == 0 {
      ok := DecodeLiteral(f, ob, c);
    } else {
      ok := DecodeCopy(f, ob, c);
    }
  }

  /** What one round makes of the element that s starts with. */
  ghost predicate StepOf(s: seq<byte>, out: seq<byte>, ok: bool, rest: seq<byte>, r: seq<byte>)
    requires s != []
  {
    match ParseElement(s)
    case Whole(e, size) =>
      && ok == InWindow(e, |out|)
      && (ok ==> r == PagedApply(e, out) && rest == s[size..])
    case CutCopy => !ok
    case _ =>
      && ok == (|s| >= 1 + ExtraBytes(s[0]))
      && (ok ==> r == out + s[1 + ExtraBytes(s[0])..] && rest == [])
  }

  /** ParseElement, seen from behind the tag. */
  lemma TagAndRest(s: seq<byte>)
    requires s != []
    ensures var c, rest, extra := s[0], s[1..], ExtraBytes(s[0]);
            && (c % 4 != 0 ==>
                 if |rest| < extra then ParseElement(s) == CutCopy
                 else ParseElement(s) == Whole(CopyElement(c, LittleEndian(rest[..extra])), 1 + extra)
                      && s[1 + extra..] == rest[extra..])
            && (c % 4 == 0 && |rest| < extra ==> ParseElement(s) == CutLiteral)
            && (c % 4 == 0 && extra <= |rest| ==>
                 var len := LiteralLength(c, LittleEndian(rest[..extra]));
                 && s[1 + extra..] == rest[extra..]
                 && (len <= |rest[extra..]| ==>
                      && ParseElement(s) == Whole(Literal(rest[extra..][..len]), 1 + extra + len)
                      && s[1 + extra + len..] == rest[extra..][len..])
                 && (len > |rest[extra..]| ==> ParseElement(s) == CutLiteral || ParseElement(s) == HugeLiteral))
  {
    hide LittleEndian;
    var rest, extra := s[1..], ExtraBytes(s[0]);
    if extra <= |rest| {
      assert s[1..1 + extra] == rest[..extra];
      assert s[1 + extra..] == rest[extra..];
      var len := LiteralLength(s[0], LittleEndian(rest[..extra]));
      if 1 + extra + len <= |s| {
        assert s[1 + extra..1 + extra + len] == rest[extra..][..len];
        assert s[1 + extra + len..] == rest[extra..][len..];
      }
    }
  }

  // ---------------------------------------------------------------------------------------------
  // The stream
  // ---------------------------------------------------------------------------------------------

  /** What the paged decoder makes of a body, None being the ValueError.  The history is limited to the
      window, offset zero is not refused, a cut copy is, and a literal cut short in its data contributes
      what there is. */
  function PagedMeaning(s: seq<byte>, out: seq<byte>): Option<seq<byte>>
    decreases |s|
  {
    if s == [] then Some(out)
    else match ParseElement(s)
      case Whole(e, size) =>
        if InWindow(e, |out|) then PagedMeaning(s[size..], PagedApply(e, out)) else None
      case CutCopy => None
      case _ =>
        if |s| >= 1 + ExtraBytes(s[0]) then Some(out + s[1 + ExtraBytes(s[0])..]) else None
  }

  predicate NoZeroOffset(es: seq<Element>) {
    forall e :: e in es ==> e.Copy? ==> e.offset >= 1
  }

  /** The first element and the others. */
  lemma FirstElement(s: seq<byte>)
    requires s != [] && Parse(s).Some?
    ensures ParseElement(s).Whole? && Parse(s[ParseElement(s).size..]).Some?
    ensures var Whole(e, size) := ParseElement(s);
            var es := Parse(s).value;
            && es != [] && es[0] == e && es[1..] == Parse(s[size..]).value
            && e in es && (forall x :: x in es[1..] ==> x in es)
            && (forall x :: x in es ==> x == e || x in es[1..])
  {
    var Whole(e, size) := ParseElement(s);
    assert ([e] + Parse(s[size..]).value)[1..] == Parse(s[size..]).value;
  }

  /** On complete elements an output is the evaluated one, and there is an evaluated one, exactly when no
      offset is zero. */
  lemma {:induction false} PagedMeaningIsEval(s: seq<byte>, out: seq<byte>)
    requires Parse(s).Some? && PagedMeaning(s, out).Some?
    ensures NoZeroOffset(Parse(s).value) <==> Eval(Parse(s).value, out).Some?
    ensures NoZeroOffset(Parse(s).value) ==> PagedMeaning(s, out) == Eval(Parse(s).value, out)
    decreases |s|
  {
    if s == [] {
      assert Parse(s).value == [];
    } else {
      FirstElement(s);
      var Whole(e, size) := ParseElement(s);
      hide ParseElement, Parse, PagedApply, Apply;
      if e.Copy? && e.offset == 0 {
        assert !Reaches(e, |out|);
      } else {
        PagedApplyIsApply(e, out);
        PagedMeaningIsEval(s[size..], PagedApply(e, out));
      }
    }
  }

  predicate ShortOffsets(es: seq<Element>) {
    forall e :: e in es ==> e.Copy? ==> 1 <= e.offset <= 0x8000
  }

  /** With offsets of 1 to 32768 the window is no limit. */
  lemma {:induction false} WindowIs32K(s: seq<byte>, out: seq<byte>)
    requires Parse(s).Some? && ShortOffsets(Parse(s).value)
    ensures PagedMeaning(s, out) == Eval(Parse(s).value, out)
    decreases |s|
  {
    if s == [] {
      assert Parse(s).value == [];
    } else {
      FirstElement(s);
      var Whole(e, size) := ParseElement(s);
      hide ParseElement, Parse, PagedApply, Apply;
      if InWindow(e, |out|) {
        PagedApplyIsApply(e, out);
        WindowIs32K(s[size..], PagedApply(e, out));
      }
    }
  }

  /** The k-th element is a copy from further back than the pages reach after n bytes of output and the
      elements before it. */
  ghost predicate OutOfReach(es: seq<Element>, k: nat, n: nat)
    requires k < |es|
  {
    es[k].Copy? && es[k].offset > Window(n + TotalWidth(es[..k]))
  }

  lemma OutOfReachNext(e: Element, es: seq<Element>, k: nat, n: nat)
    requires k < |es|
    ensures OutOfReach([e] + es, k + 1, n) <==> OutOfReach(es, k, n + Width(e))
  {
    assert ([e] + es)[..k + 1] == [e] + es[..k];
    assert ([e] + es[..k])[1..] == es[..k];
  }

  lemma SomeOutOfReach(e: Element, es: seq<Element>, n: nat, next: nat)
    requires next == n + Width(e)
    ensures (exists k :: 0 <= k < |[e] + es| && OutOfReach([e] + es, k, n)) <==>
            !InWindow(e, n) || exists k :: 0 <= k < |es| && OutOfReach(es, k, next)
  {
    assert OutOfReach([e] + es, 0, n) <==> !InWindow(e, n) by {
      assert ([e] + es)[..0] == [];
    }
    hide OutOfReach;
    if k :| 0 <= k < |es| && OutOfReach(es, k, next) {
      OutOfReachNext(e, es, k, n);
      assert OutOfReach([e] + es, k + 1, n);
    }
    if k :| 0 < k < |[e] + es| && OutOfReach([e] + es, k, n) {
      OutOfReachNext(e, es, k - 1, n);
      assert OutOfReach(es, k - 1, next);
    }
  }

  lemma {:induction false} RefusedWhenOutOfReach(s: seq<byte>, out: seq<byte>)
    requires Parse(s).Some?
    ensures var es := Parse(s).value;
            PagedMeaning(s, out) == None <==> exists k :: 0 <= k < |es| && OutOfReach(es, k, |out|)
    decreases |s|
  {
    hide OutOfReach, PagedApply, InWindow;
    if s == [] {
      assert Parse(s).value == [];
    } else {
      var Whole(e, size) := ParseElement(s);
      SomeOutOfReach(e, Parse(s[size..]).value, |out|, |out| + Width(e));
      if InWindow(e, |out|) {
        WidthOfPagedApply(e, out);
        RefusedWhenOutOfReach(s[size..], PagedApply(e, out));
      }
    }
  }

  lemma WidthOfPagedApply(e: Element, out: seq<byte>)
    requires InWindow(e, |out|)
    ensures |PagedApply(e, out)| == |out| + Width(e)
  {
  }

  /** A body of complete elements is refused exactly when some copy reaches further back than everything
      before it, while that is less than 36864 bytes, or than 32768 bytes and the filled part of a page. */
  lemma RefusalInNumbers(s: seq<byte>, out: seq<byte>)
    requires Parse(s).Some?
    ensures var es := Parse(s).value;
            PagedMeaning(s, out) == None <==>
            exists k :: 0 <= k < |es| && es[k].Copy? &&
              var n := |out| + TotalWidth(es[..k]);
              es[k].offset > if n < 36864 then n else 32768 + n % 4096
  {
    hide PagedMeaning, Parse, TotalWidth;
    RefusedWhenOutOfReach(s, out);
    var es := Parse(s).value;
    if k :| 0 <= k < |es| && OutOfReach(es, k, |out|) {
      assert es[k].Copy? && es[k].offset > Window(|out| + TotalWidth(es[..k]));
    }
    if k :| 0 <= k < |es| && es[k].Copy? &&
              var n := |out| + TotalWidth(es[..k]);
              es[k].offset > if n < 36864 then n else 32768 + n % 4096 {
      assert OutOfReach(es, k, |out|);
    }
  }

  /** Up to 36863 bytes of output the decoder and the evaluator agree for all offsets. */
  lemma {:induction false} SmallOutputs(s: seq<byte>, out: seq<byte>)
    requires Parse(s).Some? && Eval(Parse(s).value, out).Some?
    requires |out| + TotalWidth(Parse(s).value) <= 36863
    ensures PagedMeaning(s, out) == Eval(Parse(s).value, out)
    decreases |s|
  {
    if s == [] {
      assert Parse(s).value == [];
    } else {
      FirstElement(s);
      var Whole(e, size) := ParseElement(s);
      hide ParseElement, Parse, PagedApply, Apply;
      PagedApplyIsApply(e, out);
      WidthOfPagedApply(e, out);
      SmallOutputs(s[size..], PagedApply(e, out));
    }
  }

  /** A copy with offset zero, which the format does not allow, is accepted and yields zeros. */
  lemma ZeroOffsetIsAccepted()
    ensures Parse([1, 0]) == Some([Copy(0, 4)]) && Eval([Copy(0, 4)], []) == None
    ensures PagedMeaning([1, 0], []) == Some([0, 0, 0, 0])
    ensures ReadHeader([4, 1, 0], 5) == Some(Prefix(4, 1))
  {
    var s: seq<byte> := [1, 0];
    assert s[1..2] == [0] && s[2..] == [];
    LittleEndianShort(0, 0);
    assert ParseElement(s) == Whole(Copy(0, 4), 2);
    hide ParseElement, RepeatBytes;
    assert [Copy(0, 4)] + [] == [Copy(0, 4)];
    ZeroDistanceEarly([], 4);
    assert [] + seq(4, _ => 0 as byte) == [0, 0, 0, 0];
    assert PagedMeaning(s[2..], [0, 0, 0, 0]) == Some([0, 0, 0, 0]);
  }

  /** Does s end in a literal that is cut short, though its length field is whole? */
  predicate EndsInCutLiteral(s: seq<byte>)
    decreases |s|
  {
    s != [] &&
    match ParseElement(s)
    case Whole(_, size) => EndsInCutLiteral(s[size..])
    case CutCopy => false
    case _ => |s| >= 1 + ExtraBytes(s[0])
  }

  /** The paged decoder can make sense of an incomplete body exactly when it ends in a literal cut
      short in its data. */
  lemma {:induction false} IncompleteBodies(s: seq<byte>, out: seq<byte>)
    requires PagedMeaning(s, out).Some?
    ensures Parse(s).Some? <==> !EndsInCutLiteral(s)
    decreases |s|
  {
    if s == [] {
      assert Parse(s) == Some([]);
    } else if ParseElement(s).Whole? {
      var Whole(e, size) := ParseElement(s);
      IncompleteBodies(s[size..], PagedApply(e, out));
    }
  }

  /** A literal of two bytes of which one is there is accepted as that one. */
  lemma CutLiteralIsAccepted(b: byte)
    ensures Parse([4, b]) == None && EndsInCutLiteral([4, b])
    ensures PagedMeaning([4, b], []) == Some([b])
    ensures ReadHeader([1, 4, b], 5) == Some(Prefix(1, 1))
  {
    var s: seq<byte> := [4, b];
    assert s[1..1] == [];
    assert ParseElement(s) == CutLiteral;
    assert [] + s[1..] == [b];
  }

  /** The loop over elements. */
  method DecodeBody(f: Source, ob: OutputBuffer) returns (ok: bool)
    requires f.Valid() && ob.Valid()
    modifies f, ob, ob.f, ob.store
    ensures f.Valid() && ob.Valid()
    ensures match PagedMeaning(old(f.Rest()), old(ob.flat))
            case None => !ok
            case Some(r) => ok && ob.flat == r
  {
    hide ParseElement, PagedMeaning, StepOf;
    while true
      invariant f.Valid() && ob.Valid()
      invariant PagedMeaning(f.Rest(), ob.flat) == PagedMeaning(old(f.Rest()), old(ob.flat))
      decreases |f.Rest()|
    {
      if f.pos == |f.data| {
        MeaningOfNothing(f.Rest(), ob.flat);
        return true;
      }
      ghost var s, out := f.Rest(), ob.flat;
      ok := DecodeElement(f, ob);
      MeaningStep(s, out, ok, f.Rest(), ob.flat);
      if !ok {
        return false;
      }
    }
  }

  lemma MeaningOfNothing(s: seq<byte>, out: seq<byte>)
    requires s == []
    ensures PagedMeaning(s, out) == Some(out)
  {
  }

  /** One round keeps the meaning of what is left, or is the refusal that the meaning is. */
  lemma MeaningStep(s: seq<byte>, out: seq<byte>, ok: bool, rest: seq<byte>, r: seq<byte>)
    requires s != [] && StepOf(s, out, ok, rest, r)
    ensures !ok ==> PagedMeaning(s, out) == None
    ensures ok ==> PagedMeaning(rest, r) == PagedMeaning(s, out)
  {
    hide LittleEndian, PagedApply;
  }

  /** snappy_decompress; a result of false is the ValueError.  The decoder succeeds exactly when the
      body has a meaning of the length announced; the file then holds it, except that for an empty
      output it holds a page of zeros. */
  method SnappyDecompress(f: Source, ob: OutputBuffer) returns (ok: bool)
    requires f.Valid() && ob.Valid() && ob.flat == []
    modifies f, ob, ob.f, ob.store
    ensures match old(ReadHeader(f.Rest(), 5))
            case None => !ok
            case Some(Prefix(v, n)) =>
              match PagedMeaning(old(f.Rest())[n..], [])
              case None => !ok
              case Some(r) =>
                && (ok <==> |r| == v)
                && (ok && r != [] ==> ob.f.data == r)
                && (ok && r == [] ==> ob.f.data == seq(4096, _ => 0))
  {
    hide PagedMeaning, ReadHeader;
    var expected := ReadVarint32(f);
    if expected == None {
      return false;
    }
    ok := DecodeBody(f, ob);
    if !ok {
      return;
    }
    ob.TotalSize();
    if ob.isize + ob.NumBufferedBytes() == expected.value {
      var sum, size := ob.Flush();
    } else {
      ok := false;
    }
  }
}
