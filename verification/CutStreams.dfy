// What the two decoders make of a last element that is cut short, in numbers.

module CutStreams {
  import opened Bytes
  import opened DecodeSpec
  import opened Format
  import opened PagedDecompress
  import opened WireFormat

  /** A whole element at the front stays one, whatever follows. */
  lemma WholeInFront(s: seq<byte>, t: seq<byte>)
    requires s != [] && ParseElement(s).Whole?
    ensures ParseElement(s + t) == ParseElement(s)
  {
    hide LittleEndian;
    var extra := ExtraBytes(s[0]);
    assert (s + t)[1..1 + extra] == s[1..1 + extra];
    var size := ParseElement(s).size;
    assert (s + t)[1 + extra..size] == s[1 + extra..size];
  }

  // ---------------------------------------------------------------------------------------------
  // The paged decoder
  // ---------------------------------------------------------------------------------------------

  /** What follows complete elements is decoded after them. */
  lemma {:induction false} PagedConcat(s: seq<byte>, t: seq<byte>, out: seq<byte>)
    requires Parse(s).Some?
    ensures PagedMeaning(s + t, out) ==
            match PagedMeaning(s, out)
            case None => None
            case Some(mid) => PagedMeaning(t, mid)
    decreases |s|
  {
    hide ParseElement, PagedApply, InWindow;
    if s == [] {
      assert s + t == t;
    } else {
      var Whole(e, size) := ParseElement(s);
      WholeInFront(s, t);
      assert (s + t)[size..] == s[size..] + t;
      if InWindow(e, |out|) {
        PagedConcat(s[size..], t, PagedApply(e, out));
      }
    }
  }

  /** The paged decoder refuses a copy that is cut short, and a literal that is cut in its length field. */
  lemma PagedRefusesCut(s: seq<byte>, out: seq<byte>)
    requires s != []
    requires || (s[0] % 4 == 1 && |s| < 2) || (s[0] % 4 == 2 && |s| < 3) || (s[0] % 4 == 3 && |s| < 5)
             || (s[0] % 4 == 0 && s[0] >= 240 && |s| < s[0] / 4 - 58)
    ensures PagedMeaning(s, out) == None
  {
  }

  /** A literal that is cut in its data contributes what there is. */
  lemma PagedTakesCutLiteral(s: seq<byte>, out: seq<byte>)
    requires s != [] && s[0] % 4 == 0
    ensures s[0] < 240 && |s| - 1 < s[0] / 4 + 1 ==> PagedMeaning(s, out) == Some(out + s[1..])
    ensures s[0] >= 240 && |s| >= s[0] / 4 - 58 ==>
              var n := s[0] / 4 - 58;
              var length := 1 + s[1] as int
                + (if n > 2 then 0x100 * s[2] as int else 0)
                + (if n > 3 then 0x1_0000 * s[3] as int else 0)
                + (if n > 4 then 0x100_0000 * s[4] as int else 0);
              |s| < n + length ==> PagedMeaning(s, out) == Some(out + s[n..])
  {
    hide LittleEndian;
    if s[0] >= 240 && |s| >= s[0] / 4 - 58 {
      FieldValue(s[1..1 + ExtraBytes(s[0])]);
    }
  }

  // ---------------------------------------------------------------------------------------------
  // The flat decoder
  // ---------------------------------------------------------------------------------------------

  /** What follows complete elements is decoded after them, with some contents of the scratch buffer. */
  lemma {:induction false} FlatConcat(s: seq<byte>, t: seq<byte>, scratch: Scratch, out: seq<byte>, cap: nat)
    returns (held: Scratch)
    requires Parse(s).Some? && |s| + |t| <= 0x8000_0000
    ensures Decode(s + t, scratch, out, cap) ==
            match Run(Parse(s).value, out, cap)
            case Done(mid) => Decode(t, held, mid, cap)
            case other => other
    decreases |s|
  {
    hide ParseElement, Fill;
    if s == [] {
      assert s + t == t;
      held := scratch;
    } else {
      var Whole(e, size) := ParseElement(s);
      WholeInFront(s, t);
      NotRefused(s + t);
      assert (s + t)[size..] == s[size..] + t;
      RunFirst(e, Parse(s[size..]).value, out, cap);
      held := scratch;
      if Reaches(e, |out|) && |out| + Width(e) <= cap {
        held := FlatConcat(s[size..], t, Fill(s + t, scratch), Apply(e, out), cap);
      }
    }
  }

  lemma NotRefused(s: seq<byte>)
    requires |s| <= 0x8000_0000
    ensures !Refused(s)
  {
  }

  /** Byte i behind the start of s, which is one of the scratch buffer when s has ended. */
  function ByteAt(s: seq<byte>, scratch: Scratch, i: nat): byte
    requires i < 5
  {
    if i < |s| then s[i] else scratch[i]
  }

  lemma FieldInBytes(s: seq<byte>, scratch: Scratch)
    requires s != [] && ExtraBytes(s[0]) > 0
    ensures var n := ExtraBytes(s[0]);
            FieldAt(s, scratch) == ByteAt(s, scratch, 1) as int
              + (if n > 1 then 0x100 * ByteAt(s, scratch, 2) as int else 0)
              + (if n > 2 then 0x1_0000 * ByteAt(s, scratch, 3) as int else 0)
              + (if n > 3 then 0x100_0000 * ByteAt(s, scratch, 4) as int else 0)
  {
    hide LittleEndian, ExtraBytes;
    assert forall i :: 0 <= i < 5 ==> Readable(s, scratch)[i] == ByteAt(s, scratch, i);
    FieldValue(Readable(s, scratch)[1..1 + ExtraBytes(s[0])]);
  }

  /** A copy that is cut short takes its missing bytes from the scratch buffer and is then a copy like any
      other, with nothing after it. */
  lemma FlatCompletesCut(s: seq<byte>, scratch: Scratch, out: seq<byte>, cap: nat)
    requires s != []
    requires (s[0] % 4 == 1 && |s| < 2) || (s[0] % 4 == 2 && |s| < 3) || (s[0] % 4 == 3 && |s| < 5)
    ensures var b1, b2 := ByteAt(s, scratch, 1) as int, ByteAt(s, scratch, 2) as int;
            var b3, b4 := ByteAt(s, scratch, 3) as int, ByteAt(s, scratch, 4) as int;
            var length := if s[0] % 4 == 1 then s[0] / 4 % 8 + 4 else s[0] / 4 + 1;
            var offset := if s[0] % 4 == 1 then s[0] / 32 * 256 + b1
                          else if s[0] % 4 == 2 then b1 + 0x100 * b2
                          else b1 + 0x100 * b2 + 0x1_0000 * b3 + 0x100_0000 * b4;
            if !(1 <= offset <= |out|) then Decode(s, scratch, out, cap) == Malformed
            else if |out| + length > cap then Decode(s, scratch, out, cap) == Overrun
            else Decode(s, scratch, out, cap) == Done(CopyBytes(out, offset, length))
  {
    hide LittleEndian, CopyBytes, FieldAt, Fill, Readable, ByteAt;
    FieldInBytes(s, scratch);
    var e := CopyElement(s[0], FieldAt(s, scratch));
    RunFirst(e, [], out, cap);
    assert [e] + [] == [e];
  }

  /** A literal of fewer than 2^31 bytes that is cut in its data is malformed, even when it would not fit. */
  lemma FlatRefusesCutLiteral(s: seq<byte>, scratch: Scratch, out: seq<byte>, cap: nat)
    requires s != [] && s[0] % 4 == 0
    ensures s[0] < 240 && |s| - 1 < s[0] / 4 + 1 ==> Decode(s, scratch, out, cap) == Malformed
    ensures s[0] >= 240 ==>
              var n := s[0] / 4 - 58;
              var length := 1 + ByteAt(s, scratch, 1) as int
                + (if n > 2 then 0x100 * ByteAt(s, scratch, 2) as int else 0)
                + (if n > 3 then 0x1_0000 * ByteAt(s, scratch, 3) as int else 0)
                + (if n > 4 then 0x100_0000 * ByteAt(s, scratch, 4) as int else 0);
              |s| < n + length && length < 0x8000_0000 ==> Decode(s, scratch, out, cap) == Malformed
  {
    hide LittleEndian, FieldAt, Fill, Readable, ByteAt;
    FieldInside(s, scratch);
    if s[0] >= 240 {
      FieldInBytes(s, scratch);
    }
  }
}
