// The whole codec: what is compressed comes back, from either decoder.

module RoundTrip {
  import opened Bytes
  import opened Format
  import opened Status
  import opened Varint
  import BitScan
  import opened CompressSpec
  import opened DecodeSpec
  import opened PagedOutput
  import opened PagedDecompress
  import C = Compress
  import D = Decompress

  /** Elements that can be evaluated have no zero offset. */
  lemma {:induction false} EvaluatedOffsets(es: seq<Element>, out: seq<byte>)
    requires Eval(es, out).Some?
    ensures NoZeroOffset(es)
    decreases |es|
  {
    if es == [] {
      assert forall e :: e in es ==> e.Copy? ==> e.offset >= 1;
    } else {
      EvaluatedOffsets(es[1..], Apply(es[0], out));
      assert es == [es[0]] + es[1..];
    }
  }

  /** What was emitted has offsets that both decoders take. */
  lemma EmittedOffsets(stream: seq<byte>, pre: seq<byte>, es: seq<Element>, input: seq<byte>)
    requires Emitted(stream, pre, es, input)
    ensures ShortOffsets(es) && Eval(es, []) == Some(input)
  {
    EvaluatedOffsets(es, []);
  }

  /** A compressed stream splits into its header and the elements that were emitted. */
  lemma StreamParses(stream: seq<byte>, es: seq<Element>, input: seq<byte>)
    requires |input| < 0x1_0000_0000
    requires Emitted(stream, Header(|input|), es, input)
    ensures ReadHeader(stream, 5) == Some(Prefix(|input|, |Header(|input|)|))
    ensures Parse(stream[|Header(|input|)|..]) == Some(es)
    ensures PagedMeaning(stream[|Header(|input|)|..], []) == Some(input)
  {
    hide Header, EncodeAll, Eval, PagedMeaning, Parse, ShortOffsets;
    EmittedOffsets(stream, Header(|input|), es, input);
    HeaderOfWord(|input|);
    HeaderRoundTrip(|input|, EncodeAll(es), 5);
    assert stream[|Header(|input|)|..] == EncodeAll(es);
    ParseEncode(es);
    WindowIs32K(stream[|Header(|input|)|..], []);
  }

  /** What the flat decoder makes of a compressed stream is the input, whatever its scratch buffer holds,
      unless the stream is so long that its first literal is refused. */
  lemma StreamDecodes(body: seq<byte>, es: seq<Element>, input: seq<byte>, stale: Scratch)
    requires Parse(body) == Some(es) && Eval(es, []) == Some(input) && |body| < 0x1_0000_0000
    ensures Decode(body, stale, [], |input|) == if Refused(body) then Malformed else Done(input)
  {
    hide Eval, Parse, Run, Decode, Refused;
    EvalGrows(es, []);
    RunSucceeds(es, [], |input|, input);
    CompleteStreams(body, stale, |input|);
  }

  // ---------------------------------------------------------------------------------------------
  // The two decoders side by side
  // ---------------------------------------------------------------------------------------------

  /** The two decoders agree on every complete body with offsets of 1 to 32768, provided that its output
      has the length announced, which only the second decoder checks. */
  lemma DecodersAgree(body: seq<byte>, stale: Scratch, v: nat, r: seq<byte>)
    requires Parse(body).Some? && ShortOffsets(Parse(body).value)
    requires |body| < 0x1_0000_0000 && !Refused(body)
    ensures (Decode(body, stale, [], v) == Done(r) && |r| == v) <==> (PagedMeaning(body, []) == Some(r) && |r| == v)
  {
    hide Eval, Parse, Run, Decode, ShortOffsets, PagedMeaning, Refused;
    var es := Parse(body).value;
    CompleteStreams(body, stale, v);
    RunSucceeds(es, [], v, r);
    WindowIs32K(body, []);
    if Eval(es, []) == Some(r) {
      EvalGrows(es, []);
    }
  }

  /** The flat decoder, given a large enough destination, accepts the stream with the output r.  It keeps
      32 bits of the length announced. */
  predicate FlatAccepts(stream: seq<byte>, stale: Scratch, r: seq<byte>) {
    match ReadHeader(stream, 5)
    case None => false
    case Some(Prefix(v, n)) => Decode(stream[n..], stale, [], v % 0x1_0000_0000) == Done(r)
  }

  /** The paged decoder accepts it with that output.  It keeps all bits. */
  predicate PagedAccepts(stream: seq<byte>, r: seq<byte>) {
    match ReadHeader(stream, 5)
    case None => false
    case Some(Prefix(v, n)) => PagedMeaning(stream[n..], []) == Some(r) && |r| == v
  }

  /** On whole streams they agree up to that check as long as the length announced fits 32 bits; from
      then on they never accept the same output. */
  lemma StreamsAgree(stream: seq<byte>, stale: Scratch, r: seq<byte>, v: nat, n: nat)
    requires ReadHeader(stream, 5) == Some(Prefix(v, n)) && |stream| < 0x1_0000_0000
    requires Parse(stream[n..]).Some? && ShortOffsets(Parse(stream[n..]).value) && !Refused(stream[n..])
    ensures v < 0x1_0000_0000 ==> (PagedAccepts(stream, r) <==> FlatAccepts(stream, stale, r) && |r| == v)
    ensures v >= 0x1_0000_0000 ==> !(PagedAccepts(stream, r) && FlatAccepts(stream, stale, r))
  {
    hide ReadHeader, Parse, Decode, ShortOffsets, PagedMeaning, Refused;
    if v < 0x1_0000_0000 {
      assert v % 0x1_0000_0000 == v;
      DecodersAgree(stream[n..], stale, v, r);
    } else {
      AcceptanceIsExact(stream[n..], stale, [], v % 0x1_0000_0000);
    }
  }

  /** A header for 2^32 + 1 bytes, which is one byte to the flat decoder. */
  lemma HeaderDividesDecoders(b: byte, stale: Scratch)
    ensures FlatAccepts([0x81, 0x80, 0x80, 0x80, 0x10, 0, b], stale, [b])
    ensures forall r :: !PagedAccepts([0x81, 0x80, 0x80, 0x80, 0x10, 0, b], r)
  {
    var stream: seq<byte> := [0x81, 0x80, 0x80, 0x80, 0x10, 0, b];
    LongHeaderRead(stream);
    assert stream[5..] == [0, b];
    OneByteBody(b, stale);
    hide ReadHeader, PagedMeaning, Decode;
  }

  lemma LongHeaderRead(s: seq<byte>)
    requires |s| >= 5 && s[..5] == [0x81, 0x80, 0x80, 0x80, 0x10]
    ensures ReadHeader(s, 5) == Some(Prefix(0x1_0000_0001, 5))
  {
    assert s[0] == 0x81 && s[1] == 0x80 && s[2] == 0x80 && s[3] == 0x80 && s[4] == 0x10;
    assert s[1..][1..] == s[2..] && s[2..][1..] == s[3..] && s[3..][1..] == s[4..];
    assert ReadHeader(s[4..], 1) == Some(Prefix(0x10, 1));
    assert ReadHeader(s[3..], 2) == Some(Prefix(0x800, 2));
    assert ReadHeader(s[2..], 3) == Some(Prefix(0x4_0000, 3));
  }

  lemma OneByteBody(b: byte, stale: Scratch)
    ensures Decode([0, b], stale, [], 1) == Done([b])
    ensures PagedMeaning([0, b], []) == Some([b])
  {
    var s: seq<byte> := [0, b];
    OneByteLiteral(b, []);
    assert [0, b] + [] == s;
    hide ParseElement, Decode;
    assert [] + [b] == [b];
    WholeFirst(s, Literal([b]), 2, [], stale, [], 1);
    D.DecodeNothing(Fill(s, stale), [b], 1);
    assert PagedMeaning([], [b]) == Some([b]);
  }

  /** A copy with offset zero divides them: the flat decoder refuses it. */
  lemma DecodersDisagree(stale: Scratch)
    ensures PagedMeaning([1, 0], []) == Some([0, 0, 0, 0])
    ensures Decode([1, 0], stale, [], 4) == Malformed
  {
    hide PagedMeaning, Decode, Parse;
    ZeroOffsetIsAccepted();
    CompleteStreams([1, 0], stale, 4);
  }

  // ---------------------------------------------------------------------------------------------
  // Compression followed by decompression
  // ---------------------------------------------------------------------------------------------

  /** csnappy_decompress on a stream that was compressed, by whatever choice of elements. */
  method DecompressEmitted(stream: seq<byte>, ghost es: seq<Element>, ghost input: seq<byte>,
                           dst: array<byte>, dstLen: uint32, stale: Scratch)
    returns (ret: int)
    requires |stream| < 0x1_0000_0000 && |input| < 0x1_0000_0000 && dstLen <= dst.Length
    requires Emitted(stream, Header(|input|), es, input)
    modifies dst
    ensures |input| > dstLen ==> ret == -2
    ensures |Header(|input|)| <= |stream|
    ensures |input| <= dstLen ==>
              if Refused(stream[|Header(|input|)|..]) then ret == -5
              else ret == 0 && dst[..|input|] == input
    ensures forall j :: dstLen <= j < dst.Length ==> dst[j] == old(dst[j])
  {
    hide Emitted, Parse, Decode, Eval, Header, ReadHeader, ShortOffsets, PagedMeaning, Refused;
    StreamParses(stream, es, input);
    EmittedOffsets(stream, Header(|input|), es, input);
    StreamDecodes(stream[|Header(|input|)|..], es, input, stale);
    ghost var produced;
    ret, produced := D.Decompress(stream, dst, dstLen, stale);
  }

  lemma RefusedIsLong(s: seq<byte>)
    requires Refused(s)
    ensures |s| > 0x8000_0000
  {
  }

  lemma {:induction false} FlattenFirst(blocks: seq<seq<Element>>)
    requires blocks != [] && blocks[0] != []
    ensures Flatten(blocks) != [] && Flatten(blocks)[0] == blocks[0][0]
    decreases |blocks|
  {
    if |blocks| == 1 {
      assert Flatten(blocks[..0]) == [];
    } else {
      FlattenFirst(blocks[..|blocks| - 1]);
    }
  }

  /** What a compressor that works block by block emits first is a literal of at most one block. */
  lemma FirstOfBlocks(blocks: seq<seq<Element>>, es: seq<Element>, input: seq<byte>)
    requires BlockByBlock(blocks, es, input) && es != []
    ensures es[0].Literal? && Width(es[0]) <= BLOCK_SIZE
  {
    assert Eval(blocks[0], []) == Some(Block(input, 0)) && Block(input, 0) != [];
    EvalGrows(blocks[0], []);
    FlattenFirst(blocks);
  }

  /** So whatever is behind it in a long body makes the decoder refuse it. */
  lemma LongIsRefused(body: seq<byte>, blocks: seq<seq<Element>>, es: seq<Element>, input: seq<byte>)
    requires Parse(body) == Some(es) && BlockByBlock(blocks, es, input)
    requires |body| >= 0x8000_0005
    ensures Refused(body)
  {
    FirstElement(body);
    FirstOfBlocks(blocks, es, input);
    LiteralSize(body);
  }

  /** csnappy_compress followed by csnappy_decompress.  For every input up to the bound of
      csnappy_max_compressed_length, every table size and every previous contents of the working memory and
      of the decoder's scratch buffer, the output is the input when the destination can hold it, and the
      destination is refused otherwise.  The exception are compressed bodies so long that the decoder
      refuses their first literal: none of up to 2^31 bytes, and all from five bytes more on. */
  method CompressThenDecompress(input: seq<byte>, compressed: array<byte>, table: array<uint16>, power: nat,
                                dst: array<byte>, dstLen: uint32, stale: Scratch)
    returns (written: nat, ret: int)
    requires |input| <= 3681400511
    requires C.MaxCompressedLength(|input|) <= compressed.Length
    requires 9 <= power <= 16 && BitScan.Pow2(power - 1) <= table.Length
    requires dstLen <= dst.Length && compressed != dst
    modifies compressed, table, dst
    ensures |Header(|input|)| <= written <= C.MaxCompressedLength(|input|)
    ensures |input| > dstLen ==> ret == -2
    ensures |input| <= dstLen ==>
              if Refused(compressed[|Header(|input|)|..written]) then ret == -5
              else ret == 0 && dst[..|input|] == input
    ensures written <= 0x8000_0000 ==> !Refused(compressed[|Header(|input|)|..written])
    ensures written >= 0x8000_000a ==> Refused(compressed[|Header(|input|)|..written])
    ensures forall j :: dstLen <= j < dst.Length ==> dst[j] == old(dst[j])
  {
    hide Emitted, Parse, Decode, BitScan.Pow2, Eval, C.MaxCompressedLength, Refused, Header, BlockByBlock,
         PagedMeaning, ReadHeader;
    ghost var es, blocks;
    written, es, blocks := C.Compress(input, compressed, table, power);
    HeaderOfWord(|input|);
    StreamParses(compressed[..written], es, input);
    ghost var body := compressed[|Header(|input|)|..written];
    assert compressed[..written][|Header(|input|)|..] == body;
    if Refused(body) {
      RefusedIsLong(body);
    }
    if |body| >= 0x8000_0005 {
      LongIsRefused(body, blocks, es, input);
    }
    ret := DecompressEmitted(compressed[..written], es, input, dst, dstLen, stale);
  }

  /** csnappy_compress followed by the paged decoder.  It succeeds on every compressed stream; the file
      holds the input, except that for the empty input it holds a page of zeros. */
  method CompressThenPagedDecompress(input: seq<byte>, compressed: array<byte>, table: array<uint16>, power: nat,
                                     sink: Sink, checksummer: Checksummer)
    returns (ok: bool)
    requires |input| <= 3681400511
    requires C.MaxCompressedLength(|input|) <= compressed.Length
    requires 9 <= power <= 16 && BitScan.Pow2(power - 1) <= table.Length
    requires sink.data == []
    modifies compressed, table, sink
    ensures ok
    ensures input != [] ==> sink.data == input
    ensures input == [] ==> sink.data == seq(4096, _ => 0)
  {
    hide Emitted, Parse, BitScan.Pow2, Eval, C.MaxCompressedLength, PagedMeaning;
    ghost var es, blocks;
    var written;
    written, es, blocks := C.Compress(input, compressed, table, power);
    var stream := compressed[..written];
    StreamParses(stream, es, input);
    var f := new Source(stream);
    assert f.Rest() == stream;
    var ob := new OutputBuffer(sink, checksummer);
    ok := SnappyDecompress(f, ob);
  }
}
