// What the flat decoder does on every byte string, and how that relates to the stream format.

module DecodeSpec {
  import opened Bytes
  import opened Format
  import opened Status

  // ---------------------------------------------------------------------------------------------
  // Reference: evaluation into a buffer of limited size
  // ---------------------------------------------------------------------------------------------

  /** How decoding ends.  OverRead: bytes from behind the source are copied, so that no return code can be
      relied on. */
  datatype Outcome = Done(out: seq<byte>) | Malformed | Overrun | OverRead

  /** Evaluate element by element; the first element that fails decides. */
  function Run(es: seq<Element>, out: seq<byte>, cap: nat): Outcome {
    if es == [] then Done(out)
    else if !Reaches(es[0], |out|) then Malformed
    else if |out| + Width(es[0]) > cap then Overrun
    else Run(es[1..], Apply(es[0], out), cap)
  }

  /** The return code and the output that report an outcome. */
  ghost predicate Reports(o: Outcome, ret: int, final: seq<byte>) {
    match o
    case Done(out) => ret == E_OK && final == out
    case Malformed => ret == E_DATA_MALFORMED
    case Overrun => ret == E_OUTPUT_OVERRUN
    case OverRead => false
  }

  lemma {:induction false} EvalGrows(es: seq<Element>, out: seq<byte>)
    requires Eval(es, out).Some?
    ensures |Eval(es, out).value| == |out| + TotalWidth(es)
    decreases |es|
  {
    if es == [] {
    } else {
      EvalGrows(es[1..], Apply(es[0], out));
    }
  }

  /** The run succeeds exactly when every offset is valid and the whole output fits. */
  lemma {:induction false} RunSucceeds(es: seq<Element>, out: seq<byte>, cap: nat, r: seq<byte>)
    requires |out| <= cap
    ensures Run(es, out, cap) == Done(r) <==> Eval(es, out) == Some(r) && |out| + TotalWidth(es) <= cap
    decreases |es|
  {
    if es == [] {
      assert TotalWidth(es) == 0;
    } else if Reaches(es[0], |out|) && |out| + Width(es[0]) <= cap {
      RunSucceeds(es[1..], Apply(es[0], out), cap, r);
    }
  }

  /** When it fails, some element is the first to do so, and its fault is the one reported: an
      invalid offset before a lack of room. */
  lemma {:induction false} RunFails(es: seq<Element>, out: seq<byte>, cap: nat) returns (k: nat, mid: seq<byte>)
    requires !Run(es, out, cap).Done?
    ensures k < |es| && Run(es[..k], out, cap) == Done(mid)
    ensures Run(es, out, cap) == Malformed <==> !Reaches(es[k], |mid|)
    ensures Run(es, out, cap) == Overrun <==> Reaches(es[k], |mid|) && |mid| + Width(es[k]) > cap
    decreases |es|
  {
    if Reaches(es[0], |out|) && |out| + Width(es[0]) <= cap {
      k, mid := RunFails(es[1..], Apply(es[0], out), cap);
      assert es[1..][k] == es[k + 1];
      assert es[..k + 1][1..] == es[1..][..k];
      k := k + 1;
    } else {
      k, mid := 0, out;
    }
  }

  lemma {:induction false} RunConcat(es: seq<Element>, fs: seq<Element>, out: seq<byte>, cap: nat)
    ensures Run(es + fs, out, cap) ==
            match Run(es, out, cap)
            case Done(mid) => Run(fs, mid, cap)
            case other => other
    decreases |es|
  {
    if es == [] {
      assert es + fs == fs;
    } else {
      assert (es + fs)[0] == es[0] && (es + fs)[1..] == es[1..] + fs;
      if Reaches(es[0], |out|) && |out| + Width(es[0]) <= cap {
        RunConcat(es[1..], fs, Apply(es[0], out), cap);
      }
    }
  }

  /** Before element k nothing is wrong. */
  lemma RunUpTo(es: seq<Element>, k: nat, cap: nat)
    requires k < |es| && Eval(es[..k], []).Some? && TotalWidth(es[..k]) <= cap
    ensures !Reaches(es[k], TotalWidth(es[..k])) ==> Run(es, [], cap) == Malformed
    ensures Reaches(es[k], TotalWidth(es[..k])) && TotalWidth(es[..k]) + Width(es[k]) > cap ==>
              Run(es, [], cap) == Overrun
  {
    hide Eval, TotalWidth;
    var mid := Eval(es[..k], []).value;
    EvalGrows(es[..k], []);
    RunSucceeds(es[..k], [], cap, mid);
    assert es == es[..k] + es[k..] && es[k..][0] == es[k];
    RunConcat(es[..k], es[k..], [], cap);
  }

  /** The faults of a list of elements, without an evaluator that has a capacity. */
  lemma RunInNumbers(es: seq<Element>, cap: nat)
    ensures Run(es, [], cap).Done? <==> Eval(es, []).Some? && TotalWidth(es) <= cap
    ensures Run(es, [], cap).Done? ==> Eval(es, []) == Some(Run(es, [], cap).out)
    ensures Run(es, [], cap) == Malformed <==>
            exists k :: 0 <= k < |es| && Eval(es[..k], []).Some? && TotalWidth(es[..k]) <= cap
                        && !Reaches(es[k], TotalWidth(es[..k]))
    ensures Run(es, [], cap) == Overrun <==>
            exists k :: 0 <= k < |es| && Eval(es[..k], []).Some? && TotalWidth(es[..k]) <= cap
                        && Reaches(es[k], TotalWidth(es[..k])) && TotalWidth(es[..k]) + Width(es[k]) > cap
  {
    hide Eval, TotalWidth, Run;
    if Run(es, [], cap).Done? {
      RunSucceeds(es, [], cap, Run(es, [], cap).out);
    } else {
      var k, mid := RunFails(es, [], cap);
      RunSucceeds(es[..k], [], cap, mid);
      EvalGrows(es[..k], []);
      RunUpTo(es, k, cap);
    }
    if Eval(es, []).Some? {
      RunSucceeds(es, [], cap, Eval(es, []).value);
    }
    forall k | 0 <= k < |es| && Eval(es[..k], []).Some? && TotalWidth(es[..k]) <= cap
      ensures !Reaches(es[k], TotalWidth(es[..k])) ==> Run(es, [], cap) == Malformed
      ensures Reaches(es[k], TotalWidth(es[..k])) && TotalWidth(es[..k]) + Width(es[k]) > cap ==>
                Run(es, [], cap) == Overrun
    {
      RunUpTo(es, k, cap);
    }
  }

  // ---------------------------------------------------------------------------------------------
  // The decoder on arbitrary bytes
  // ---------------------------------------------------------------------------------------------

  /** The contents of the scratch buffer. */
  type Scratch = s: seq<byte> | |s| == 5 witness [0, 0, 0, 0, 0]

  /** As much of its front as is known. */
  type Front = s: seq<byte> | |s| <= 5

  /** The scratch buffer when s is left to read: once that is five bytes or fewer, they have been moved
      to its front, and the bytes behind them are what it held before. */
  function Fill(s: seq<byte>, scratch: Front): (r: Front)
    ensures |scratch| <= |r| && (|s| <= 5 ==> s <= r)
  {
    if |s| > 5 then scratch
    else s + (if |s| <= |scratch| then scratch[|s|..] else [])
  }

  /** What can be read from the start of s on, without regard to its end. */
  function Readable(s: seq<byte>, scratch: Front): (r: seq<byte>)
    ensures s <= r && |scratch| <= |r|
  {
    if |s| > 5 then s else Fill(s, scratch)
  }

  /** The number in the bytes between the tag and what follows, stale bytes included. */
  function FieldAt(s: seq<byte>, scratch: Scratch): nat
    requires s != []
  {
    LittleEndian(Readable(s, scratch)[1..1 + ExtraBytes(s[0])])
  }

  /** The length of a literal in 32-bit arithmetic. */
  function LengthWord(tag: byte, field: nat): uint32 {
    LiteralLength(tag, field) % 0x1_0000_0000
  }

  /** The cast of a 32-bit length to a signed integer. */
  function Int32(w: uint32): int {
    if w < 0x8000_0000 then w else w - 0x1_0000_0000
  }

  /** The number of bytes behind a length field is kept in a signed 32-bit variable.  From 2^31 on it is
      negative, and a literal with fewer bytes than that is refused, as is one that is cut short. */
  predicate Refused(s: seq<byte>) {
    && s != [] && s[0] % 4 == 0
    && |s| - 1 - ExtraBytes(s[0]) >= 0x8000_0000
    && (ParseElement(s).Whole? ==> Width(ParseElement(s).e) < 0x8000_0000)
  }

  /** What csnappy_decompress_noheader makes of s, after the output `out`, with these bytes in the
      scratch buffer.  Complete elements are evaluated in order.  A copy that the end of the stream cuts
      short is completed by stale bytes of the scratch buffer, and nothing can follow it.  A literal cut
      short is refused, unless its length is negative as a signed number and fits the room left: then it
      is copied from behind the source.  A length field of all ones wraps around to an empty literal. */
  function Decode(s: seq<byte>, scratch: Scratch, out: seq<byte>, cap: nat): Outcome
    decreases |s|
  {
    if s == [] then Done(out)
    else if Refused(s) then Malformed
    else match ParseElement(s)
      case Whole(e, size) =>
        if !Reaches(e, |out|) then Malformed
        else if |out| + Width(e) > cap then Overrun
        else Decode(s[size..], Fill(s, scratch), Apply(e, out), cap)
      case CutCopy => Run([CopyElement(s[0], FieldAt(s, scratch))], out, cap)
      case HugeLiteral => Decode(s[5..], Fill(s, scratch), out, cap)
      case CutLiteral =>
        var length := LengthWord(s[0], FieldAt(s, scratch));
        if |s| - 1 - ExtraBytes(s[0]) < Int32(length) then Malformed
        else if |out| + length > cap then Overrun
        else OverRead
  }

  /** Moving the tail to the scratch buffer once more changes nothing. */
  lemma DecodeFilled(s: seq<byte>, scratch: Scratch, out: seq<byte>, cap: nat)
    ensures Fill(s, Fill(s, scratch)) == Fill(s, scratch)
    ensures Decode(s, Fill(s, scratch), out, cap) == Decode(s, scratch, out, cap)
  {
    hide Fill, ParseElement, CopyElement, LengthWord, Refused;
    FillTwice(s, scratch);
  }

  lemma FillTwice(s: seq<byte>, scratch: Scratch)
    ensures Fill(s, Fill(s, scratch)) == Fill(s, scratch)
  {
  }

  lemma RunFirst(e: Element, es: seq<Element>, out: seq<byte>, cap: nat)
    ensures Run([e] + es, out, cap) ==
            if !Reaches(e, |out|) then Malformed
            else if |out| + Width(e) > cap then Overrun
            else Run(es, Apply(e, out), cap)
  {
    assert ([e] + es)[1..] == es;
  }

  /** On streams of complete elements, of which no count turns negative, the decoder is the reference
      evaluator, whatever the scratch buffer holds. */
  lemma {:induction false} CompleteElements(s: seq<byte>, scratch: Scratch, out: seq<byte>, cap: nat)
    requires Parse(s).Some? && |s| <= 0x8000_0000
    ensures Decode(s, scratch, out, cap) == Run(Parse(s).value, out, cap)
    decreases |s|
  {
    if s == [] {
      assert Parse(s).value == [];
    } else {
      var e, size := ParseElement(s).e, ParseElement(s).size;
      var es := Parse(s[size..]).value;
      RunFirst(e, es, out, cap);
      if Reaches(e, |out|) && |out| + Width(e) <= cap {
        CompleteElements(s[size..], Fill(s, scratch), Apply(e, out), cap);
      }
    }
  }

  /** What the decoder makes of complete elements in a source of up to 2^32 - 1 bytes: that of the
      reference evaluator, unless the first of them is refused for what is behind it. */
  function Expected(s: seq<byte>, cap: nat): Outcome
    requires Parse(s).Some?
  {
    if Refused(s) then Malformed else Run(Parse(s).value, [], cap)
  }

  lemma CompleteStreams(s: seq<byte>, scratch: Scratch, cap: nat)
    requires Parse(s).Some? && |s| < 0x1_0000_0000
    ensures Decode(s, scratch, [], cap) == Expected(s, cap)
  {
    if s == [] || Refused(s) {
    } else {
      var e, size := ParseElement(s).e, ParseElement(s).size;
      RunFirst(e, Parse(s[size..]).value, [], cap);
      if e.Literal? && |e.bytes| <= cap {
        LiteralSize(s);
        CompleteElements(s[size..], Fill(s, scratch), Apply(e, []), cap);
      }
    }
  }

  lemma LiteralSize(s: seq<byte>)
    requires s != [] && ParseElement(s).Whole? && ParseElement(s).e.Literal?
    ensures s[0] % 4 == 0 && ParseElement(s).size == 1 + ExtraBytes(s[0]) + Width(ParseElement(s).e)
  {
  }

  /** The length of an accepted output is fixed by the elements alone.  That it is at most the capacity
      is checked, that it equals the length announced is not. */
  lemma AcceptedLength(s: seq<byte>, scratch: Scratch, v: nat)
    requires Parse(s).Some? && |s| < 0x1_0000_0000
    ensures var es := Parse(s).value;
            && (Decode(s, scratch, [], v).Done? <==> !Refused(s) && Eval(es, []).Some? && TotalWidth(es) <= v)
            && (Decode(s, scratch, [], v).Done? ==> |Decode(s, scratch, [], v).out| == TotalWidth(es))
  {
    hide Parse, Decode, Eval, Run, TotalWidth, Refused;
    var es := Parse(s).value;
    CompleteStreams(s, scratch, v);
    if Eval(es, []).Some? {
      EvalGrows(es, []);
      RunSucceeds(es, [], v, Eval(es, []).value);
    }
    if Run(es, [], v).Done? {
      RunSucceeds(es, [], v, Run(es, [], v).out);
    }
  }

  /** The field of an element that is not cut within it. */
  lemma FieldInside(s: seq<byte>, scratch: Scratch)
    requires s != []
    ensures |s| >= 1 + ExtraBytes(s[0]) ==> FieldAt(s, scratch) == LittleEndian(s[1..1 + ExtraBytes(s[0])])
  {
    hide LittleEndian;
    var extra := ExtraBytes(s[0]);
    if |s| >= 1 + extra {
      assert Readable(s, scratch)[1..1 + extra] == s[1..1 + extra];
    }
  }

  /** The 32-bit length that the code computes, and the length of the format. */
  lemma LengthIn32Bits(s: seq<byte>, scratch: Scratch)
    requires s != [] && s[0] % 4 == 0
    ensures var tag, field := s[0], FieldAt(s, scratch);
            var len := LiteralLength(tag, field);
            && 1 <= len <= 0x1_0000_0000 && (len == 0x1_0000_0000 ==> ExtraBytes(tag) == 4)
            && LengthWord(tag, field) == (if len == 0x1_0000_0000 then 0 else len)
  {
    LittleEndianBound(Readable(s, scratch)[1..1 + ExtraBytes(s[0])]);
    Pow256Values();
  }

  // ---------------------------------------------------------------------------------------------
  // Exactly which streams are accepted
  // ---------------------------------------------------------------------------------------------

  /** The smallest non-zero offset that the cut copy s can be completed to. */
  function LeastOffset(s: seq<byte>): nat
    requires s != []
  {
    var known := (if s[0] % 4 == 1 then s[0] / 32 * 256 else 0) + LittleEndian(s[1..]);
    if known == 0 then Pow256(|s| - 1) else known
  }

  /** Can the decoder accept s after n bytes of output, given room for it, when the scratch buffer
      starts with the bytes `known`? */
  predicate MayAccept(s: seq<byte>, known: Front, n: nat)
    decreases |s|
  {
    s == [] ||
    (!Refused(s) &&
     match ParseElement(s)
     case Whole(e, size) => Reaches(e, n) && MayAccept(s[size..], Fill(s, known), n + Width(e))
     case CutCopy => CompletionReaches(Readable(s, known), n)
     case HugeLiteral => MayAccept(s[5..], Fill(s, known), n)
     case CutLiteral => false)
  }

  /** Has the copy whose first bytes are r a valid offset, or a completion with one? */
  predicate CompletionReaches(r: seq<byte>, n: nat)
    requires r != []
  {
    var extra := ExtraBytes(r[0]);
    if |r| < 1 + extra then LeastOffset(r) <= n
    else Reaches(CopyElement(r[0], LittleEndian(r[1..1 + extra])), n)
  }

  /** The length of the output that s stands for: the widths of its elements, a cut copy included and a
      cut literal not. */
  function OutWidth(s: seq<byte>): nat
    decreases |s|
  {
    if s == [] then 0
    else match ParseElement(s)
      case Whole(e, size) => Width(e) + OutWidth(s[size..])
      case CutCopy => Width(CopyElement(s[0], 0))
      case HugeLiteral => OutWidth(s[5..])
      case CutLiteral => 0
  }

  /** Does s consist of complete elements with valid offsets? */
  predicate WellFormed(s: seq<byte>, n: nat)
    decreases |s|
  {
    s == [] ||
    match ParseElement(s)
    case Whole(e, size) => Reaches(e, n) && WellFormed(s[size..], n + Width(e))
    case _ => false
  }

  lemma {:induction false} LittleEndianConcat(s: seq<byte>, t: seq<byte>)
    ensures LittleEndian(s + t) == LittleEndian(s) + Pow256(|s|) * LittleEndian(t)
    decreases |s|
  {
    if s == [] {
      assert s + t == t;
    } else {
      assert (s + t)[0] == s[0] && (s + t)[1..] == s[1..] + t;
      LittleEndianConcat(s[1..], t);
      Regroup(Pow256(|s| - 1), LittleEndian(t));
    }
  }

  lemma Regroup(p: nat, v: nat)
    ensures 256 * (p * v) == (256 * p) * v
  {
  }

  lemma {:induction false} LittleEndianZeros(n: nat)
    ensures LittleEndian(seq(n, _ => 0)) == 0
  {
    if n == 0 {
    } else {
      var z: seq<byte> := seq(n, _ => 0);
      assert z[1..] == seq(n - 1, _ => 0);
      LittleEndianZeros(n - 1);
    }
  }

  /** The offset of a cut copy, once completed. */
  lemma CompletedOffset(s: seq<byte>, missing: seq<byte>)
    requires s != [] && ParseElement(s) == CutCopy
    ensures var known := (if s[0] % 4 == 1 then s[0] / 32 * 256 else 0) + LittleEndian(s[1..]);
            CopyElement(s[0], LittleEndian(s[1..] + missing)).offset
              == known + Pow256(|s| - 1) * LittleEndian(missing)
  {
    LittleEndianConcat(s[1..], missing);
  }

  /** No completion has a smaller non-zero offset ... */
  lemma LeastOffsetIsLeast(s: seq<byte>, missing: seq<byte>)
    requires s != [] && ParseElement(s) == CutCopy
    requires CopyElement(s[0], LittleEndian(s[1..] + missing)).offset >= 1
    ensures LeastOffset(s) <= CopyElement(s[0], LittleEndian(s[1..] + missing)).offset
  {
    CompletedOffset(s, missing);
    var p, v := Pow256(|s| - 1), LittleEndian(missing);
    if v > 0 {
      assert p * v >= p;
    } else {
      assert p * v == 0;
    }
  }

  /** ... and one completion has it. */
  lemma LeastOffsetIsReached(s: seq<byte>) returns (missing: seq<byte>)
    requires s != [] && ParseElement(s) == CutCopy
    ensures |s| + |missing| == 1 + ExtraBytes(s[0])
    ensures CopyElement(s[0], LittleEndian(s[1..] + missing)).offset == LeastOffset(s) >= 1
  {
    var n: nat := 1 + ExtraBytes(s[0]) - |s|;
    var known := (if s[0] % 4 == 1 then s[0] / 32 * 256 else 0) + LittleEndian(s[1..]);
    if known == 0 {
      missing := [1] + seq(n - 1, _ => 0);
      assert missing[1..] == seq(n - 1, _ => 0);
      LittleEndianZeros(n - 1);
      assert LittleEndian(missing) == 1;
    } else {
      missing := seq(n, _ => 0);
      LittleEndianZeros(n);
    }
    CompletedOffset(s, missing);
  }

  /** What is known of the scratch buffer stays true of it. */
  lemma FillKeepsKnown(s: seq<byte>, known: Front, scratch: Scratch)
    requires known <= scratch
    ensures Fill(s, known) <= Fill(s, scratch) && Readable(s, known) <= Readable(s, scratch)
  {
    if |s| <= |known| {
      assert known[|s|..] <= scratch[|s|..];
    }
  }

  /** A scratch buffer of which `known` is known, and which becomes this one. */
  lemma FillFrom(s: seq<byte>, known: Front, later: Scratch) returns (scratch: Scratch)
    requires Fill(s, known) <= later
    ensures known <= scratch && Fill(s, scratch) == later
  {
    if |s| > 5 {
      scratch := later;
    } else if |s| <= |known| {
      scratch := known[..|s|] + later[|s|..];
      assert s + known[|s|..] <= later;
      assert known == known[..|s|] + known[|s|..];
    } else {
      scratch := known + seq(|s| - |known|, _ => 0) + later[|s|..];
      assert s <= later;
    }
  }

  /** Bytes that complete a cut copy are part of its field. */
  lemma Completion(r: seq<byte>, whole: seq<byte>) returns (missing: seq<byte>)
    requires r != [] && r <= whole && ParseElement(r) == CutCopy && |whole| >= 5
    ensures |r| + |missing| == 1 + ExtraBytes(r[0])
    ensures whole[1..1 + ExtraBytes(r[0])] == r[1..] + missing
  {
    missing := whole[|r|..1 + ExtraBytes(r[0])];
    assert r == whole[..|r|];
  }

  /** A cut copy that is completed to a valid offset passes the test. */
  lemma CompletedPasses(r: seq<byte>, whole: seq<byte>, n: nat)
    requires r != [] && r <= whole && r[0] % 4 != 0 && |whole| >= 5
    requires Reaches(CopyElement(r[0], LittleEndian(whole[1..1 + ExtraBytes(r[0])])), n)
    ensures CompletionReaches(r, n)
  {
    var extra := ExtraBytes(r[0]);
    if |r| < 1 + extra {
      var missing := Completion(r, whole);
      LeastOffsetIsLeast(r, missing);
    } else {
      assert r[1..1 + extra] == whole[1..1 + extra];
    }
  }

  /** One that passes the test can be completed to a valid offset. */
  lemma PassingIsCompleted(r: Front, n: nat) returns (whole: Scratch)
    requires r != [] && r[0] % 4 != 0 && CompletionReaches(r, n)
    ensures r <= whole
    ensures Reaches(CopyElement(r[0], LittleEndian(whole[1..1 + ExtraBytes(r[0])])), n)
  {
    var extra := ExtraBytes(r[0]);
    if |r| < 1 + extra {
      var missing := LeastOffsetIsReached(r);
      whole := r + missing + seq(4 - extra, _ => 0);
      assert whole[1..1 + extra] == r[1..] + missing;
    } else {
      whole := r + seq(5 - |r|, _ => 0);
      assert whole[1..1 + extra] == r[1..1 + extra];
    }
  }

  lemma CutCopyTag(s: seq<byte>)
    requires s != [] && ParseElement(s) == CutCopy
    ensures s[0] % 4 != 0 && |s| < 5
  {
  }

  /** A cut copy with this scratch buffer. */
  lemma CompletedCopy(s: seq<byte>, scratch: Scratch, n: nat)
    requires s != [] && ParseElement(s) == CutCopy
    ensures var e := CopyElement(s[0], FieldAt(s, scratch));
            && (CompletionReaches(Readable(s, scratch), n) <==> Reaches(e, n))
            && Width(e) == OutWidth(s)
  {
    hide LittleEndian;
    CutCopyTag(s);
    assert Readable(s, scratch)[0] == s[0];
  }

  /** The decoder accepts s, with this scratch buffer and in this room, exactly when the test is passed
      and the output fits; and it is of that length. */
  lemma {:induction false} AcceptanceIsExact(s: seq<byte>, scratch: Scratch, out: seq<byte>, cap: nat)
    requires |out| <= cap
    ensures Decode(s, scratch, out, cap).Done? <==> MayAccept(s, scratch, |out|) && |out| + OutWidth(s) <= cap
    ensures Decode(s, scratch, out, cap).Done? ==> |Decode(s, scratch, out, cap).out| == |out| + OutWidth(s)
    decreases |s|
  {
    hide Fill, ParseElement, CompletionReaches, Readable, Refused, FieldAt, LengthWord, CopyElement;
    if s == [] || Refused(s) {
      assert OutWidth([]) == 0;
    } else {
      match ParseElement(s)
      case Whole(e, size) =>
        if Reaches(e, |out|) && |out| + Width(e) <= cap {
          AcceptanceIsExact(s[size..], Fill(s, scratch), Apply(e, out), cap);
        }
      case HugeLiteral => AcceptanceIsExact(s[5..], Fill(s, scratch), out, cap);
      case CutCopy =>
        CompletedCopy(s, scratch, |out|);
        var e := CopyElement(s[0], FieldAt(s, scratch));
        RunFirst(e, [], out, cap);
        assert [e] + [] == [e];
      case CutLiteral =>
    }
  }

  /** Knowing less of the scratch buffer rules nothing out. */
  lemma {:induction false} LessKnown(s: seq<byte>, known: Front, scratch: Scratch, n: nat)
    requires known <= scratch && MayAccept(s, scratch, n)
    ensures MayAccept(s, known, n)
    decreases |s|
  {
    hide Fill, ParseElement, CompletionReaches, Refused;
    if s == [] {
    } else {
      FillKeepsKnown(s, known, scratch);
      match ParseElement(s)
      case Whole(e, size) => LessKnown(s[size..], Fill(s, known), Fill(s, scratch), n + Width(e));
      case HugeLiteral => LessKnown(s[5..], Fill(s, known), Fill(s, scratch), n);
      case CutCopy =>
        CutCopyTag(s);
        assert Readable(s, known)[0] == s[0];
        CompletedCopy(s, scratch, n);
        CompletedPasses(Readable(s, known), Readable(s, scratch), n);
    }
  }

  /** What passes the test on the known bytes passes it for some contents of the scratch buffer. */
  lemma {:induction false} MoreKnown(s: seq<byte>, known: Front, n: nat) returns (scratch: Scratch)
    requires MayAccept(s, known, n)
    ensures known <= scratch && MayAccept(s, scratch, n)
    decreases |s|
  {
    hide Fill, ParseElement, CompletionReaches, Refused;
    if s == [] {
      scratch := known + seq(5 - |known|, _ => 0);
    } else {
      match ParseElement(s)
      case Whole(e, size) =>
        var later := MoreKnown(s[size..], Fill(s, known), n + Width(e));
        scratch := FillFrom(s, known, later);
      case HugeLiteral =>
        var later := MoreKnown(s[5..], Fill(s, known), n);
        scratch := FillFrom(s, known, later);
      case CutCopy =>
        CutCopyTag(s);
        var whole := PassingIsCompleted(Fill(s, known), n);
        scratch := FillFrom(s, known, whole);
        CompletedCopy(s, scratch, n);
    }
  }

  lemma {:induction false} WellFormedMeansComplete(s: seq<byte>, out: seq<byte>)
    ensures WellFormed(s, |out|) <==> Parse(s).Some? && Eval(Parse(s).value, out).Some?
    decreases |s|
  {
    if s == [] {
    } else {
      match ParseElement(s)
      case Whole(e, size) =>
        if Parse(s[size..]).Some? {
          var es := Parse(s[size..]).value;
          assert ([e] + es)[1..] == es;
        }
        if Reaches(e, |out|) {
          WellFormedMeansComplete(s[size..], Apply(e, out));
        }
      case _ =>
    }
  }

  /** The format's test is the stricter one, where no count turns negative. */
  lemma {:induction false} WellFormedMayBe(s: seq<byte>, known: Front, n: nat)
    requires WellFormed(s, n) && |s| <= 0x8000_0000
    ensures MayAccept(s, known, n)
    decreases |s|
  {
    if s == [] {
    } else {
      var Whole(e, size) := ParseElement(s);
      WellFormedMayBe(s[size..], Fill(s, known), n + Width(e));
    }
  }

  lemma WellFormedMayBeAccepted(s: seq<byte>, known: Front)
    requires WellFormed(s, 0) && |s| < 0x1_0000_0000 && !Refused(s)
    ensures MayAccept(s, known, 0)
  {
    if s == [] {
    } else {
      var Whole(e, size) := ParseElement(s);
      LiteralSize(s);
      WellFormedMayBe(s[size..], Fill(s, known), Width(e));
    }
  }

  /** Accepted in this room, with some contents of the scratch buffer that start with `known`. */
  ghost predicate Accepts(s: seq<byte>, known: Front, cap: nat) {
    exists scratch: Scratch :: known <= scratch && Decode(s, scratch, [], cap).Done?
  }

  /** The decoder's acceptance of a stream in a given room, such as its header announces, for some
      scratch contents that start with `known`.  With nothing known this is about an uninitialised buffer,
      with five bytes known about those contents. */
  lemma AcceptedInRoom(s: seq<byte>, known: Front, cap: nat)
    ensures Accepts(s, known, cap) <==> MayAccept(s, known, 0) && OutWidth(s) <= cap
  {
    hide MayAccept, Decode, OutWidth;
    if scratch: Scratch :| known <= scratch && Decode(s, scratch, [], cap).Done? {
      AcceptanceIsExact(s, scratch, [], cap);
      LessKnown(s, known, scratch, 0);
    }
    if MayAccept(s, known, 0) && OutWidth(s) <= cap {
      var scratch := MoreKnown(s, known, 0);
      AcceptanceIsExact(s, scratch, [], cap);
    }
  }

  /** Over all the capacities that the code can be given, acceptance differs from the format's exactly on
      the streams that pass one test and not the other: those that reach a cut copy or an all-ones length
      field before any fault, and those of more than 2^31 bytes whose first literal is refused. */
  lemma FalseAcceptance(s: seq<byte>, known: Front)
    requires |s| < 0x1_0000_0000
    ensures (exists cap: uint32 :: Accepts(s, known, cap)) <==> MayAccept(s, known, 0) && OutWidth(s) < 0x1_0000_0000
    ensures (Parse(s).Some? && Eval(Parse(s).value, []).Some?) <==> WellFormed(s, 0)
    ensures WellFormed(s, 0) && !Refused(s) ==> MayAccept(s, known, 0)
  {
    hide Accepts, MayAccept, OutWidth, Refused;
    if cap: uint32 :| Accepts(s, known, cap) {
      AcceptedInRoom(s, known, cap);
    }
    if MayAccept(s, known, 0) && OutWidth(s) < 0x1_0000_0000 {
      AcceptedInRoom(s, known, OutWidth(s));
      assert Accepts(s, known, OutWidth(s));
    }
    WellFormedMeansComplete(s, []);
    if WellFormed(s, 0) && !Refused(s) {
      WellFormedMayBeAccepted(s, known);
    }
  }

  // ---------------------------------------------------------------------------------------------
  // Exactly when the decoder reads behind its source
  // ---------------------------------------------------------------------------------------------

  /** The 32-bit length of the cut literal that s ends in, if the signed comparison lets it pass. */
  function CutLength(s: seq<byte>, scratch: Scratch): Option<uint32>
    decreases |s|
  {
    if s == [] || Refused(s) then None
    else match ParseElement(s)
      case Whole(_, size) => CutLength(s[size..], Fill(s, scratch))
      case CutCopy => None
      case HugeLiteral => CutLength(s[5..], Fill(s, scratch))
      case CutLiteral =>
        var length := LengthWord(s[0], FieldAt(s, scratch));
        if |s| - 1 - ExtraBytes(s[0]) < Int32(length) then None else Some(length)
  }

  /** Do all complete copies of s have valid offsets? */
  predicate ValidOffsets(s: seq<byte>, n: nat)
    decreases |s|
  {
    s == [] ||
    match ParseElement(s)
    case Whole(e, size) => Reaches(e, n) && ValidOffsets(s[size..], n + Width(e))
    case HugeLiteral => ValidOffsets(s[5..], n)
    case _ => true
  }

  /** The decoder copies from behind its source exactly when s ends in such a literal, no offset before it
      is invalid, and the output before it and its length fit the room. */
  lemma {:induction false} OverReadIsExact(s: seq<byte>, scratch: Scratch, out: seq<byte>, cap: nat)
    requires |out| <= cap
    ensures Decode(s, scratch, out, cap) == OverRead <==>
            && ValidOffsets(s, |out|) && CutLength(s, scratch).Some?
            && |out| + OutWidth(s) + CutLength(s, scratch).value <= cap
    decreases |s|
  {
    hide Fill, ParseElement, Refused, FieldAt, LengthWord, CopyElement;
    if s == [] || Refused(s) {
    } else {
      match ParseElement(s)
      case Whole(e, size) =>
        if Reaches(e, |out|) && |out| + Width(e) <= cap {
          OverReadIsExact(s[size..], Fill(s, scratch), Apply(e, out), cap);
        }
      case HugeLiteral => OverReadIsExact(s[5..], Fill(s, scratch), out, cap);
      case CutCopy =>
        var e := CopyElement(s[0], FieldAt(s, scratch));
        RunFirst(e, [], out, cap);
        assert [e] + [] == [e];
      case CutLiteral =>
    }
  }

  /** The length that passes is 2^31 or more, ... */
  lemma {:induction false} CutLengthIsHuge(s: seq<byte>, scratch: Scratch)
    requires CutLength(s, scratch).Some?
    ensures CutLength(s, scratch).value >= 0x8000_0000
    ensures Parse(s) == None
    decreases |s|
  {
    hide Fill, Refused, FieldAt, LengthWord, LiteralLength;
    match ParseElement(s)
    case Whole(_, size) => CutLengthIsHuge(s[size..], Fill(s, scratch));
    case HugeLiteral => CutLengthIsHuge(s[5..], Fill(s, scratch));
    case CutLiteral =>
      FieldInside(s, scratch);
      LengthIn32Bits(s, scratch);
  }

  /** ... so that less room, or a stream of complete elements, is safe. */
  lemma NoOverRead(s: seq<byte>, scratch: Scratch, out: seq<byte>, cap: nat)
    requires |out| <= cap && (cap < 0x8000_0000 || Parse(s).Some?)
    ensures Decode(s, scratch, out, cap) != OverRead
  {
    hide Decode, CutLength, Parse;
    OverReadIsExact(s, scratch, out, cap);
    if CutLength(s, scratch).Some? {
      CutLengthIsHuge(s, scratch);
    }
  }

  /** The whole source is a length field for 2^31 bytes, for which there is room. */
  lemma OverReadHappens(scratch: Scratch, cap: nat)
    requires cap >= 0x8000_0000
    ensures Decode([0xfc, 0xff, 0xff, 0xff, 0x7f], scratch, [], cap) == OverRead
  {
    var s: seq<byte> := [0xfc, 0xff, 0xff, 0xff, 0x7f];
    LengthOfHalf();
    assert s[1..5] == [0xff, 0xff, 0xff, 0x7f];
    FieldInside(s, scratch);
    assert ParseElement(s) == CutLiteral;
  }

  lemma LengthOfHalf()
    ensures LittleEndian([0xff, 0xff, 0xff, 0x7f]) == 0x7fff_ffff
  {
    LittleEndianShort(0xff, 0xff);
    LittleEndianShort(0xff, 0x7f);
    LittleEndianConcat([0xff, 0xff], [0xff, 0x7f]);
    Pow256Values();
    assert [0xff, 0xff] + [0xff, 0x7f] == [0xff, 0xff, 0xff, 0x7f];
  }

  // ---------------------------------------------------------------------------------------------
  // Examples
  // ---------------------------------------------------------------------------------------------

  /** A lone tag of a copy with a one-byte offset takes the second byte of the scratch buffer. */
  lemma LoneTag(tag: byte, scratch: Scratch, out: seq<byte>, cap: nat)
    requires tag % 4 == 1
    ensures Parse([tag]) == None
    ensures Decode([tag], scratch, out, cap) == Run([CopyElement(tag, scratch[1])], out, cap)
  {
    assert ParseElement([tag]) == CutCopy;
    assert Fill([tag], scratch)[1..2] == [scratch[1]];
    LittleEndianShort(scratch[1], 0);
    hide LittleEndian, CopyElement, Run;
  }

  /** The first of several elements. */
  lemma WholeFirst(s: seq<byte>, e: Element, size: nat, rest: seq<byte>, scratch: Scratch, out: seq<byte>, cap: nat)
    requires s != [] && ParseElement(s) == Whole(e, size) && s[size..] == rest && |s| <= 0x8000_0000
    requires Reaches(e, |out|) && |out| + Width(e) <= cap
    ensures Decode(s, scratch, out, cap) == Decode(rest, Fill(s, scratch), Apply(e, out), cap)
    ensures Parse(rest) == None ==> Parse(s) == None
  {
  }

  /** A one-byte-offset copy whose offset byte is missing, after 512 bytes of output: every completion
      is a valid offset, so the decoder accepts this incomplete stream whatever the scratch holds. */
  lemma CutCopyIsAccepted(data: seq<byte>, scratch: Scratch)
    requires |data| == 512
    ensures Parse(EncodeElement(Literal(data)) + [33]) == None
    ensures Decode(EncodeElement(Literal(data)) + [33], scratch, [], 1000)
         == Done(CopyBytes(data, 256 + scratch[1] as nat, 4))
  {
    hide Decode, ParseElement, Parse, Run, CopyBytes;
    var code := EncodeElement(Literal(data));
    var s := code + [33];
    LiteralRoundTrip(data, [33]);
    LiteralThenTag(s, code, data, scratch);
    RunOne(Copy(256 + scratch[1] as nat, 4), data, 1000);
  }

  lemma LiteralThenTag(s: seq<byte>, code: seq<byte>, data: seq<byte>, scratch: Scratch)
    requires |data| == 512 && |s| > 5
    requires s == code + [33] && ParseElement(s) == Whole(Literal(data), |code|)
    ensures Parse(s) == None
    ensures Decode(s, scratch, [], 1000) == Run([CopyElement(33, scratch[1])], data, 1000)
  {
    assert s[|code|..] == [33];
    assert Fill(s, scratch) == scratch;
    hide Fill, Decode, ParseElement, Parse, Run, CopyElement;
    assert [] + data == data;
    WholeFirst(s, Literal(data), |code|, [33], scratch, [], 1000);
    LoneTag(33, scratch, data, 1000);
  }

  lemma RunOne(e: Element, out: seq<byte>, cap: nat)
    requires Reaches(e, |out|) && |out| + Width(e) <= cap
    ensures Run([e], out, cap) == Done(Apply(e, out))
  {
    RunFirst(e, [], out, cap);
    assert [e] + [] == [e];
  }

  /** A stale byte of the stream itself completes the copy: after a one-byte literal b, the missing
      offset byte is the b that the scratch buffer still holds, so that the stream is accepted exactly
      when b is one. */
  lemma StaleByteDecides(b: byte, scratch: Scratch, cap: nat)
    requires cap >= 5
    ensures Parse([0, b, 1]) == None
    ensures Decode([0, b, 1], scratch, [], cap) == if b == 1 then Done([1, 1, 1, 1, 1]) else Malformed
  {
    hide ParseElement, Parse, Decode, Run, CopyBytes;
    var s: seq<byte> := [0, b, 1];
    OneByteLiteral(b, [1]);
    assert [0, b] + [1] == s;
    assert Fill(s, scratch)[1] == b;
    assert [] + [b] == [b];
    WholeFirst(s, Literal([b]), 2, [1], scratch, [], cap);
    hide Fill;
    LoneTag(1, Fill(s, scratch), [b], cap);
    RunCopyOfOne(b, cap);
  }

  lemma RunCopyOfOne(b: byte, cap: nat)
    requires cap >= 5
    ensures Run([CopyElement(1, b)], [b], cap) == if b == 1 then Done([1, 1, 1, 1, 1]) else Malformed
  {
    hide Run, CopyBytes;
    RunFirst(Copy(b, 4), [], [b], cap);
    assert [Copy(b, 4)] + [] == [Copy(b, 4)];
    if b == 1 {
      RunOne(Copy(1, 4), [1], cap);
      FourOnes();
    }
  }

  lemma OneByteLiteral(b: byte, rest: seq<byte>)
    ensures ParseElement([0, b] + rest) == Whole(Literal([b]), 2) && ([0, b] + rest)[2..] == rest
  {
    var s := [0, b] + rest;
    assert s[1..1] == [] && s[1..2] == [b];
  }

  lemma FourOnes()
    ensures CopyBytes([1], 1, 4) == [1, 1, 1, 1, 1]
  {
    var r: seq<byte> := [1, 1, 1, 1, 1];
    assert r[..1] == [1];
    CopyIsUnique([1], 1, 4, r);
  }

  /** A literal tag with a length field of all ones is accepted as an empty literal. */
  lemma HugeLiteralIsAccepted(scratch: Scratch, cap: nat)
    ensures Parse([0xfc, 0xff, 0xff, 0xff, 0xff]) == None
    ensures Decode([0xfc, 0xff, 0xff, 0xff, 0xff], scratch, [], cap) == Done([])
  {
    var s: seq<byte> := [0xfc, 0xff, 0xff, 0xff, 0xff];
    AllOnes();
    assert s[1..5] == [0xff, 0xff, 0xff, 0xff];
    assert ParseElement(s) == HugeLiteral;
    assert s[5..] == [];
  }

  lemma AllOnes()
    ensures LittleEndian([0xff, 0xff, 0xff, 0xff]) == 0xffff_ffff
  {
    LittleEndianShort(0xff, 0xff);
    LittleEndianConcat([0xff, 0xff], [0xff, 0xff]);
    Pow256Values();
    assert [0xff, 0xff] + [0xff, 0xff] == [0xff, 0xff, 0xff, 0xff];
  }
}
