// The paged output buffer of the second decoder.

module PagedOutput {
  import opened Bytes
  import opened Format

  const PAGE: nat := 4096
  const PAGES: nat := 9

  /** The output file. */
  class Sink {
    var data: seq<byte>

    constructor ()
      ensures data == []
    {
      data := [];
    }

    method Write(bytes: seq<byte>)
      modifies this
      ensures data == old(data) + bytes
    {
      data := data + bytes;
    }
  }

  type Checksummer = (seq<byte>, int) -> int

  /** A running checksum: summing two chunks in turn is summing them as one. */
  ghost predicate Composes(c: Checksummer) {
    && c([], 0) == 0
    && (forall a, b, x :: c(a + b, x) == c(b, c(a, x)))
  }

  /** The byte that a repeat from that distance reads.  Distance zero, which the buffer does not refuse,
      reads the cell that is about to be written: a zero until all pages have been filled once, and from
      then on the byte of nine pages before. */
  function BackByte(out: seq<byte>, distance: nat): byte
    requires distance <= |out|
  {
    if distance >= 1 then out[|out| - distance]
    else if |out| < PAGES * PAGE then 0
    else out[|out| - PAGES * PAGE]
  }

  /** The output after n bytes have been repeated from that distance. */
  function RepeatBytes(out: seq<byte>, distance: nat, n: nat): (r: seq<byte>)
    requires distance <= |out|
    ensures |r| == |out| + n
    decreases n
  {
    if n == 0 then out else RepeatBytes(out + [BackByte(out, distance)], distance, n - 1)
  }

  /** Every distance but zero repeats as the format says. */
  lemma {:induction false} RepeatIsCopy(out: seq<byte>, distance: nat, n: nat)
    requires 1 <= distance <= |out|
    ensures RepeatBytes(out, distance, n) == CopyBytes(out, distance, n)
    decreases n
  {
    if n == 0 {
      assert CopyBytes(out, distance, 0) == out;
    } else {
      RepeatIsCopy(out + [out[|out| - distance]], distance, n - 1);
    }
  }

  /** Distance zero repeats zeros into the first nine pages, ... */
  lemma {:induction false} ZeroDistanceEarly(out: seq<byte>, n: nat)
    requires |out| + n <= 36864
    ensures RepeatBytes(out, 0, n) == out + seq(n, _ => 0)
    decreases n
  {
    if n == 0 {
      assert RepeatBytes(out, 0, 0) == out;
    } else {
      ZeroDistanceEarly(out + [0], n - 1);
      assert [0] + seq(n - 1, _ => 0) == seq(n, _ => 0 as byte);
      assert out + [0] + seq(n - 1, _ => 0) == out + ([0] + seq(n - 1, _ => 0));
    }
  }

  /** ... and is a distance of nine pages from then on. */
  lemma {:induction false} ZeroDistanceLate(out: seq<byte>, n: nat)
    requires |out| >= 36864
    ensures RepeatBytes(out, 0, n) == CopyBytes(out, 36864, n)
    decreases n
  {
    if n == 0 {
      assert CopyBytes(out, 36864, 0) == out;
    } else {
      ZeroDistanceLate(out + [out[|out| - 36864]], n - 1);
    }
  }

  lemma RepeatNothing(out: seq<byte>, distance: nat)
    requires distance <= |out|
    ensures RepeatBytes(out, distance, 0) == out
  {
  }

  lemma {:induction false} RepeatInTwo(out: seq<byte>, distance: nat, a: nat, b: nat)
    requires distance <= |out|
    ensures RepeatBytes(RepeatBytes(out, distance, a), distance, b) == RepeatBytes(out, distance, a + b)
    decreases a
  {
    if a == 0 {
      RepeatNothing(out, distance);
    } else {
      RepeatInTwo(out + [BackByte(out, distance)], distance, a - 1, b);
    }
  }

  lemma RepeatOneMore(out: seq<byte>, distance: nat, n: nat)
    requires distance <= |out|
    ensures var r := RepeatBytes(out, distance, n);
            RepeatBytes(out, distance, n + 1) == r + [BackByte(r, distance)]
  {
    RepeatInTwo(out, distance, n, 1);
    var r := RepeatBytes(out, distance, n);
    RepeatNothing(r + [BackByte(r, distance)], distance);
  }

  /** The longest distance that can be repeated once n bytes have been written: all of them until the
      first page is dropped, and from then on eight pages and the filled part of the ninth. */
  function Window(n: nat): (w: nat)
    ensures w <= n
    ensures n <= 0x8000 ==> w == n
    ensures n >= 0x8000 ==> 0x8000 <= w < PAGES * PAGE
  {
    if n < PAGES * PAGE then n else (PAGES - 1) * PAGE + n % PAGE
  }

  /** Nine distinct pages of zeros. */
  method NewPages() returns (ps: seq<array<byte>>)
    ensures |ps| == PAGES && fresh(ps)
    ensures forall i :: 0 <= i < PAGES ==> ps[i].Length == PAGE
    ensures forall i, j :: 0 <= i < j < PAGES ==> ps[i] != ps[j]
    ensures forall i, o :: 0 <= i < PAGES && 0 <= o < PAGE ==> ps[i][o] == 0
  {
    ps := [];
    for n := 0 to PAGES
      invariant |ps| == n && fresh(ps)
      invariant forall i :: 0 <= i < n ==> ps[i].Length == PAGE
      invariant forall i, j :: 0 <= i < j < n ==> ps[i] != ps[j]
      invariant forall i, o :: 0 <= i < n && 0 <= o < PAGE ==> ps[i][o] == 0
    {
      var page := new byte[PAGE](_ => 0);
      ps := ps + [page];
    }
  }

  /** A ring of nine pages that must look like one growing string of bytes, `flat`.  Pages are
      written to the file as they drop out of the ring; the ring keeps the last 36864 bytes, the
      oldest of them in the part of the top page that is not overwritten yet. */
  class OutputBuffer {
    const f: Sink
    const checksummer: Checksummer
    var pages: seq<array<byte>>
    var topPageIndex: int
    var topOffset: int
    var isize: nat
    var checksum: int

    /** Everything put into the buffer so far. */
    ghost var flat: seq<byte>
    /** The number of pages that have dropped out of the ring. */
    ghost var flushed: nat
    /** The page objects, in whatever order. */
    ghost const store: set<array<byte>>

    ghost predicate PagesOk()
      reads `pages
    {
      && |pages| == PAGES
      && (forall i :: 0 <= i < PAGES ==> pages[i].Length == PAGE && pages[i] in store)
      && (forall i, j :: 0 <= i < j < PAGES ==> pages[i] != pages[j])
    }

    /** What the file holds and the counters say once that many pages have been written. */
    ghost predicate FileOk()
      reads `flat, `flushed, `isize, `checksum, f
    {
      && flushed * PAGE <= |flat|
      && f.data == flat[..flushed * PAGE]
      && isize == flushed * PAGE
      && (Composes(checksummer) ==> checksum == checksummer(flat[..flushed * PAGE], 0))
    }

    /** The ring represents `flat` when `off` bytes of the top page have been filled. */
    ghost predicate Ring(off: nat)
      reads `pages, `topPageIndex, `flat, `flushed, store
    {
      && PagesOk()
      && 0 <= topPageIndex < PAGES && off <= PAGE
      && (flushed > 0 ==> topPageIndex == PAGES - 1)
      && |flat| == (flushed + topPageIndex) * PAGE + off
      && (forall i, o :: 0 <= i < topPageIndex && 0 <= o < PAGE ==>
            pages[i][o] == flat[(flushed + i) * PAGE + o])
      && (forall o :: 0 <= o < off ==>
            pages[topPageIndex][o] == flat[(flushed + topPageIndex) * PAGE + o])
      && (flushed > 0 ==> forall o :: off <= o < PAGE ==>
            pages[topPageIndex][o] == flat[(flushed - 1) * PAGE + o])
      && (flushed == 0 ==> forall o :: off <= o < PAGE ==> pages[topPageIndex][o] == 0)
      && (flushed == 0 ==> forall i, o :: topPageIndex < i < PAGES && 0 <= o < PAGE ==> pages[i][o] == 0)
    }

    ghost predicate Valid()
      reads this, f, store
    {
      0 <= topOffset < PAGE && Ring(topOffset) && FileOk()
    }

    constructor (f: Sink, checksummer: Checksummer)
      requires f.data == []
      ensures Valid() && flat == [] && this.f == f && this.checksummer == checksummer
      ensures fresh(store)
    {
      var ps := NewPages();
      this.f, this.checksummer := f, checksummer;
      pages, store := ps, set p | p in ps;
      topPageIndex, topOffset, isize, checksum := 0, 0, 0, 0;
      flat, flushed := [], 0;
      new;
      EmptyFileOk();
    }

    lemma EmptyFileOk()
      requires flat == [] && flushed == 0 && f.data == [] && isize == 0 && checksum == 0
      ensures FileOk()
    {
      assert flat[..0] == [];
    }

    /** num_bufferred_bytes. */
    function NumBufferedBytes(): int
      reads this
    {
      topPageIndex * PAGE + topOffset
    }

    /** _flush_page: write the oldest page and make it the newest. */
    method FlushPage()
      requires PagesOk()
      modifies `pages, `isize, `checksum, `flushed, f
      ensures pages == old(pages)[1..] + [old(pages)[0]]
      ensures f.data == old(f.data) + old(pages[0][..])
      ensures isize == old(isize) + PAGE && flushed == old(flushed) + 1
      ensures checksum == checksummer(old(pages[0][..]), old(checksum))
    {
      checksum := checksummer(pages[0][..], checksum);
      isize := isize + PAGE;
      f.Write(pages[0][..]);
      pages := pages[1..] + [pages[0]];
      flushed := flushed + 1;
    }

    /** One byte goes into the top page. */
    method StoreCell(off: nat, b: byte)
      requires Ring(off) && off < PAGE
      modifies `flat, pages[topPageIndex]
      ensures Ring(off + 1) && flat == old(flat) + [b]
    {
      var page := pages[topPageIndex];
      page[off] := b;
      flat := flat + [b];
    }

    /** Where the ring is when its top page is full: the oldest page is written and recycled. */
    lemma RingAfterFlush(before: seq<array<byte>>, filled: nat)
      requires |before| == PAGES && pages == before[1..] + [before[0]]
      requires PagesOk() && topPageIndex == PAGES - 1 && flushed == filled + 1
      requires |flat| == (filled + PAGES) * PAGE
      requires forall i :: 0 <= i < PAGES ==> before[i].Length == PAGE
      requires forall i, o :: 0 <= i < PAGES && 0 <= o < PAGE ==> before[i][o] == flat[(filled + i) * PAGE + o]
      ensures Ring(0)
    {
      forall i, o | 0 <= i < topPageIndex && 0 <= o < PAGE
        ensures pages[i][o] == flat[(flushed + i) * PAGE + o]
      {
        assert pages[i] == before[i + 1];
      }
    }

    /** _maybe_flush_page. */
    method MaybeFlushPage()
      requires 0 <= topOffset <= PAGE && Ring(topOffset) && FileOk()
      modifies `pages, `topPageIndex, `topOffset, `isize, `checksum, `flushed, f
      ensures Valid()
    {
      if topOffset == PAGE {
        topOffset := 0;
        if topPageIndex == |pages| - 1 {
          FlushTop();
        } else {
          topPageIndex := topPageIndex + 1;
        }
      }
    }

    /** A full ring drops its oldest page. */
    method FlushTop()
      requires Ring(PAGE) && topPageIndex == PAGES - 1 && FileOk()
      modifies `pages, `isize, `checksum, `flushed, f
      ensures Ring(0) && FileOk() && flushed == old(flushed) + 1
    {
      ghost var before, filled := pages, flushed;
      FirstPage();
      FlushPage();
      RingAfterFlush(before, filled);
    }

    /** The oldest page holds the next bytes of the file. */
    lemma FirstPage()
      requires Ring(PAGE) && topPageIndex == PAGES - 1
      ensures (flushed + 1) * PAGE <= |flat|
      ensures flat[..(flushed + 1) * PAGE] == flat[..flushed * PAGE] + pages[0][..]
    {
    }

    /** put_byte. */
    method PutByte(b: byte)
      requires Valid()
      modifies this, f, store
      ensures Valid() && flat == old(flat) + [b]
    {
      StoreCell(topOffset, b);
      topOffset := topOffset + 1;
      MaybeFlushPage();
    }

    /** put_bytes. */
    method PutBytes(bytes: seq<byte>)
      requires Valid()
      modifies this, f, store
      ensures Valid() && flat == old(flat) + bytes
    {
      hide Ring, FileOk;
      var curr, len := 0, |bytes|;
      assert bytes[..0] == [];
      while curr < len
        invariant 0 <= curr <= len
        invariant Valid() && flat == old(flat) + bytes[..curr]
      {
        var length := if PAGE - topOffset < len - curr then PAGE - topOffset else len - curr;
        assert bytes[..curr + length] == bytes[..curr] + bytes[curr..curr + length];
        PutChunk(bytes[curr..curr + length]);
        curr := curr + length;
      }
      assert bytes[..len] == bytes;
    }

    /** One round of the loop: the part that fits the top page. */
    method PutChunk(chunk: seq<byte>)
      requires Valid() && topOffset + |chunk| <= PAGE
      modifies this, f, store
      ensures Valid() && flat == old(flat) + chunk
    {
      FillTop(chunk);
      topOffset := topOffset + |chunk|;
      MaybeFlushPage();
    }

    /** A slice assignment into the top page. */
    method FillTop(chunk: seq<byte>)
      requires Valid() && topOffset + |chunk| <= PAGE
      modifies `flat, pages[topPageIndex]
      ensures Ring(topOffset + |chunk|) && FileOk() && flat == old(flat) + chunk
    {
      assert chunk[..0] == [];
      for i := 0 to |chunk|
        invariant Ring(topOffset + i) && FileOk()
        invariant flat == old(flat) + chunk[..i]
      {
        assert chunk[..i + 1] == chunk[..i] + [chunk[i]];
        StoreCellInFile(topOffset + i, chunk[i]);
      }
      assert chunk[..|chunk|] == chunk;
    }

    /** The file is not concerned with bytes that are still in the ring. */
    lemma StoreInFile(b: byte)
      requires FileOk()
      ensures (flat + [b])[..flushed * PAGE] == flat[..flushed * PAGE]
    {
    }

    /** Python's `pages[i]`: a negative index counts from the end. */
    function PageAt(i: int): array<byte>
      requires |pages| == PAGES && -1 <= i < PAGES
      reads this
    {
      if i < 0 then pages[|pages| + i] else pages[i]
    }

    /** Reading back: the byte `distance` places before the end is where the input indices say, even
        when they have moved to the recycled page; for distance zero they lead to the cell that is about
        to be written. */
    lemma InputCell(off: nat, distance: nat, inputPage: int, inputOffset: nat)
      requires Ring(off) && off < PAGE
      requires distance < PAGES * PAGE && distance <= |flat|
      requires -1 <= inputPage < PAGES && inputOffset < PAGE
      requires |flat| - distance == (flushed + inputPage) * PAGE + inputOffset
      ensures PageAt(inputPage)[inputOffset] == BackByte(flat, distance)
      ensures PageAt(inputPage)[inputOffset] == if distance >= 1 then flat[|flat| - distance]
                                                else if |flat| < 36864 then 0 else flat[|flat| - 36864]
    {
      if distance == 0 {
        assert inputPage == topPageIndex && inputOffset == off;
      } else if inputPage < 0 {
        assert flushed > 0;
        assert inputOffset > off;
      } else if inputPage < topPageIndex {
      } else {
        assert inputPage == topPageIndex && inputOffset < off;
      }
    }

    /** The inner copy of repeat_chunk, within one input page and one output page. */
    method CopyWithinPages(distance: nat, inputPage: int, inputOffset: nat, n: nat)
      requires Valid()
      requires distance < PAGES * PAGE && distance <= |flat|
      requires -1 <= inputPage < PAGES
      requires topOffset + n <= PAGE && inputOffset + n <= PAGE
      requires |flat| - distance == (flushed + inputPage) * PAGE + inputOffset
      modifies `flat, pages[topPageIndex]
      ensures Ring(topOffset + n) && FileOk()
      ensures flat == RepeatBytes(old(flat), distance, n)
    {
      hide RepeatBytes, FileOk;
      ghost var before := flat;
      RepeatNothing(flat, distance);
      for i := 0 to n
        invariant Ring(topOffset + i) && FileOk()
        invariant flat == RepeatBytes(before, distance, i)
      {
        RepeatOneMore(before, distance, i);
        CopyCell(topOffset + i, distance, inputPage, inputOffset + i);
      }
    }

    /** One byte of it. */
    method CopyCell(off: nat, distance: nat, inputPage: int, inputOffset: nat)
      requires Ring(off) && off < PAGE && FileOk()
      requires distance < PAGES * PAGE && distance <= |flat|
      requires -1 <= inputPage < PAGES && inputOffset < PAGE
      requires |flat| - distance == (flushed + inputPage) * PAGE + inputOffset
      modifies `flat, pages[topPageIndex]
      ensures Ring(off + 1) && FileOk()
      ensures flat == old(flat) + [BackByte(old(flat), distance)]
    {
      InputCell(off, distance, inputPage, inputOffset);
      StoreCellInFile(off, PageAt(inputPage)[inputOffset]);
    }

    /** StoreCell leaves the file alone. */
    method StoreCellInFile(off: nat, b: byte)
      requires Ring(off) && off < PAGE && FileOk()
      modifies `flat, pages[topPageIndex]
      ensures Ring(off + 1) && FileOk() && flat == old(flat) + [b]
    {
      StoreInFile(b);
      StoreCell(off, b);
    }

    lemma {:induction false} RunOfOneByte(out: seq<byte>, n: nat)
      requires |out| >= 1
      ensures CopyBytes(out, 1, n) == out + seq(n, _ => out[|out| - 1])
    {
      var b := out[|out| - 1];
      if n == 0 {
      } else {
        RunOfOneByte(out, n - 1);
        CopyInTwoPieces(out, 1, n - 1, 1);
        assert seq(n, _ => b) == seq(n - 1, _ => b) + [b];
      }
    }

    /** The inner copy for distance one: a run of the last byte. */
    method RepeatByte(inputPage: int, inputOffset: nat, n: nat)
      requires Valid() && |flat| >= 1
      requires -1 <= inputPage < PAGES && inputOffset < PAGE
      requires topOffset + n <= PAGE
      requires |flat| - 1 == (flushed + inputPage) * PAGE + inputOffset
      modifies `flat, pages[topPageIndex]
      ensures Ring(topOffset + n) && FileOk()
      ensures flat == RepeatBytes(old(flat), 1, n)
    {
      InputCell(topOffset, 1, inputPage, inputOffset);
      RunOfOneByte(flat, n);
      RepeatIsCopy(flat, 1, n);
      var b := PageAt(inputPage)[inputOffset];
      FillTop(seq(n, _ => b));
    }

    /** The input indices point `distance` bytes back. */
    ghost predicate PointsBack(distance: nat, inputPage: int, inputOffset: int)
      requires 0 <= topOffset
      reads this
    {
      && distance <= |flat| && distance < PAGES * PAGE
      && -1 <= inputPage < PAGES && 0 <= inputOffset < PAGE
      && |flat| - distance == (flushed + inputPage) * PAGE + inputOffset
    }

    /** One round of repeat_chunk: copy up to the end of a page, then move on, which may flush the
        oldest page in the middle of the copy and shift every index by one. */
    method RepeatRound(length: nat, distance: nat, inputPage0: int, inputOffset0: nat)
      returns (n: nat, inputPage: int, inputOffset: nat)
      requires Valid() && PointsBack(distance, inputPage0, inputOffset0)
      modifies this, f, store
      ensures Valid() && PointsBack(distance, inputPage, inputOffset)
      ensures n <= length && (length > 0 ==> n > 0)
      ensures flat == RepeatBytes(old(flat), distance, n)
    {
      hide RepeatBytes, Ring, FileOk;
      inputPage, inputOffset := inputPage0, inputOffset0;
      n := length;
      if PAGE - topOffset < n {
        n := PAGE - topOffset;
      }
      if PAGE - inputOffset < n {
        n := PAGE - inputOffset;
      }
      CopyPart(distance, inputPage, inputOffset, n);
      inputOffset := inputOffset + n;
      if inputOffset == PAGE {
        inputOffset := 0;
        inputPage := inputPage + 1;
      }
      topOffset := topOffset + n;
      inputPage := AdvanceTop(inputPage);
      StillPointsBack(distance, inputPage, inputOffset);
    }

    /** The copy itself, with the short cut for runs of one byte. */
    method CopyPart(distance: nat, inputPage: int, inputOffset: nat, n: nat)
      requires Valid() && PointsBack(distance, inputPage, inputOffset)
      requires topOffset + n <= PAGE && inputOffset + n <= PAGE
      modifies `flat, store
      ensures Ring(topOffset + n) && FileOk()
      ensures flat == RepeatBytes(old(flat), distance, n)
    {
      hide RepeatBytes;
      if distance == 1 {
        RepeatByte(inputPage, inputOffset, n);
      } else {
        CopyWithinPages(distance, inputPage, inputOffset, n);
      }
    }

    lemma StillPointsBack(distance: nat, inputPage: int, inputOffset: int)
      requires Valid() && distance <= |flat| && distance < PAGES * PAGE
      requires 0 <= inputOffset < PAGE
      requires |flat| - distance == (flushed + inputPage) * PAGE + inputOffset
      ensures PointsBack(distance, inputPage, inputOffset)
    {
    }

    /** The end of a round: a full top page is left behind. */
    method AdvanceTop(inputPage0: int) returns (inputPage: int)
      requires 0 <= topOffset <= PAGE && Ring(topOffset) && FileOk()
      modifies `pages, `topPageIndex, `topOffset, `isize, `checksum, `flushed, f
      ensures Valid()
      ensures flushed + inputPage == old(flushed) + inputPage0
    {
      inputPage := inputPage0;
      if topOffset == PAGE {
        topOffset := 0;
        if topPageIndex == |pages| - 1 {
          FlushTop();
          inputPage := inputPage - 1;
        } else {
          topPageIndex := topPageIndex + 1;
        }
      }
    }

    /** repeat_chunk: an overlapped copy, refused (the ValueError) exactly when it reaches further
        back than the ring; distance zero is not refused. */
    method RepeatChunk(length0: nat, distance: nat) returns (ok: bool)
      requires Valid()
      modifies this, f, store
      ensures Valid() && ok == (distance <= Window(|old(flat)|))
      ensures ok <==> distance <= if old(|flat|) < 36864 then old(|flat|) else 32768 + old(|flat|) % 4096
      ensures ok ==> flat == RepeatBytes(old(flat), distance, length0)
      ensures !ok ==> flat == old(flat)
    {
      hide RepeatBytes;
      BufferedIsWindow();
      var begin := topPageIndex * PAGE + topOffset - distance;
      if begin < 0 {
        return false;
      }
      var length: nat := length0;
      var inputPage, inputOffset := begin / PAGE, begin % PAGE;
      StartPointsBack(distance, begin);
      ok := true;
      while true
        invariant Valid() && PointsBack(distance, inputPage, inputOffset)
        invariant distance <= |old(flat)| && length <= length0
        invariant flat == RepeatBytes(old(flat), distance, length0 - length)
        decreases length
      {
        var n;
        n, inputPage, inputOffset := RepeatRound(length, distance, inputPage, inputOffset);
        RepeatInTwo(old(flat), distance, length0 - length, n);
        length := length - n;
        if length == 0 {
          break;
        }
      }
    }

    lemma StartPointsBack(distance: nat, begin: nat)
      requires Valid() && begin == topPageIndex * PAGE + topOffset - distance
      ensures PointsBack(distance, begin / PAGE, begin % PAGE)
      ensures flat == RepeatBytes(flat, distance, 0)
    {
    }

    lemma TotalSize()
      requires Valid()
      ensures isize + NumBufferedBytes() == |flat|
    {
    }

    /** How far back the pages reach depends on the amount written alone. */
    lemma BufferedIsWindow()
      requires Valid()
      ensures NumBufferedBytes() == Window(|flat|)
      ensures NumBufferedBytes() == if |flat| < 36864 then |flat| else 32768 + |flat| % 4096
    {
      if flushed > 0 {
        assert |flat| == (flushed + PAGES - 1) * PAGE + topOffset;
      }
    }

    /** While the buffer is being emptied: the pages up to the top one hold the rest of the output,
        `fin` bytes of it in the top page. */
    ghost predicate Tail(fin: nat)
      reads `pages, `topPageIndex, `flat, `flushed, store
    {
      && PagesOk()
      && 0 <= topPageIndex < PAGES && 1 <= fin <= PAGE
      && |flat| == (flushed + topPageIndex) * PAGE + fin
      && (forall i, o :: 0 <= i < topPageIndex && 0 <= o < PAGE ==>
            pages[i][o] == flat[(flushed + i) * PAGE + o])
      && (forall o :: 0 <= o < fin ==>
            pages[topPageIndex][o] == flat[(flushed + topPageIndex) * PAGE + o])
    }

    /** One page leaves through the front. */
    method FlushFront(ghost fin: nat)
      requires Tail(fin) && topPageIndex > 0 && FileOk()
      modifies `pages, `topPageIndex, `isize, `checksum, `flushed, f
      ensures Tail(fin) && FileOk() && topPageIndex == old(topPageIndex) - 1
    {
      ghost var before, filled, top := pages, flushed, topPageIndex;
      FrontPage(fin);
      FlushPage();
      topPageIndex := topPageIndex - 1;
      forall i, o | 0 <= i < topPageIndex && 0 <= o < PAGE
        ensures pages[i][o] == flat[(flushed + i) * PAGE + o]
      {
        assert pages[i] == before[i + 1];
      }
      assert pages[topPageIndex] == before[top];
    }

    lemma FrontPage(fin: nat)
      requires Tail(fin) && topPageIndex > 0
      ensures (flushed + 1) * PAGE <= |flat|
      ensures flat[..(flushed + 1) * PAGE] == flat[..flushed * PAGE] + pages[0][..]
    {
    }

    /** The last, partial page. */
    lemma LastPage(fin: nat)
      requires Tail(fin) && topPageIndex == 0 && FileOk()
      ensures flat == flat[..flushed * PAGE] + pages[0][..fin]
    {
    }

    lemma TailStarts()
      requires Valid()
      ensures topOffset > 0 ==> flat != [] && Tail(topOffset)
      ensures topOffset == 0 && flat != [] ==> topPageIndex > 0
      ensures flat == [] ==> topOffset == 0 && topPageIndex == 0 && flushed == 0
    {
    }

    /** Step back to the last byte, which is at the end of the previous page when the top page is
        empty; with nothing in the buffer, that is the end of page -1. */
    method StepBack()
      requires Valid()
      modifies `topOffset, `topPageIndex
      ensures FileOk() && 0 <= topOffset < PAGE
      ensures flat != [] ==> Tail(topOffset + 1)
      ensures flat == [] ==> topPageIndex == -1 && topOffset == PAGE - 1 && flushed == 0
    {
      TailStarts();
      topOffset := topOffset - 1;
      if topOffset < 0 {
        topOffset := PAGE - 1;
        topPageIndex := topPageIndex - 1;
      }
    }

    static lemma ChecksumOfWhole(c: Checksummer, front: seq<byte>, last: seq<byte>)
      ensures Composes(c) ==> c(front + last, 0) == c(last, c(front, 0))
    {
    }

    /** A buffer that was never written to holds zeros. */
    lemma UntouchedPages()
      requires Valid() && flat == []
      ensures PageAt(-1)[..] == seq(4096, _ => 0)
    {
    }

    /** flush.  When something was put into the buffer, the file holds all of it, and the size and the
        checksum returned are those of the whole output.  When nothing was, the index of the last byte
        has wrapped around, and a whole page of zeros goes to the file. */
    method Flush() returns (sum: int, size: nat)
      requires Valid()
      modifies `pages, `topPageIndex, `topOffset, `isize, `checksum, `flushed, f
      ensures flat != [] ==> f.data == flat && size == |flat|
      ensures flat == [] ==> f.data == seq(4096, _ => 0) && size == 4096
      ensures (&& checksummer([], 0) == 0
               && forall a, b, x :: checksummer(a + b, x) == checksummer(b, checksummer(a, x))) ==>
                sum == checksummer(f.data, 0) % 4294967296
    {
      if flat == [] {
        UntouchedPages();
      }
      StepBack();
      ghost var fin: nat := topOffset + 1;
      while topPageIndex > 0
        invariant topOffset == fin - 1 && FileOk() && PagesOk()
        invariant flat != [] ==> Tail(fin)
        invariant flat == [] ==> topPageIndex == -1 && pages == old(pages) && flushed == 0
        decreases topPageIndex
      {
        FlushFront(fin);
      }
      if flat != [] {
        LastPage(fin);
      }
      var data := PageAt(topPageIndex)[..topOffset + 1];
      ChecksumOfWhole(checksummer, flat[..flushed * PAGE], data);
      checksum := checksummer(data, checksum);
      isize := isize + topOffset + 1;
      f.Write(data);
      return checksum % 0x1_0000_0000, isize;
    }
  }

  // ---------------------------------------------------------------------------------------------
  // Whole runs
  // ---------------------------------------------------------------------------------------------

  datatype Operation = PutByte(b: byte) | PutBytes(bytes: seq<byte>) | RepeatChunk(length: nat, distance: nat)

  /** The operations on one flat string; None when a distance is beyond the window. */
  function FlatRun(ops: seq<Operation>, out: seq<byte>): Option<seq<byte>> {
    if ops == [] then Some(out)
    else match ops[0]
      case PutByte(b) => FlatRun(ops[1..], out + [b])
      case PutBytes(bytes) => FlatRun(ops[1..], out + bytes)
      case RepeatChunk(length, distance) =>
        if distance <= Window(|out|) then FlatRun(ops[1..], RepeatBytes(out, distance, length))
        else None
  }

  /** What one operation makes of a run, in numbers. */
  lemma FirstOperation(op: Operation, ops: seq<Operation>, out: seq<byte>)
    ensures op.PutByte? ==> FlatRun([op] + ops, out) == FlatRun(ops, out + [op.b])
    ensures op.PutBytes? ==> FlatRun([op] + ops, out) == FlatRun(ops, out + op.bytes)
    ensures op.RepeatChunk? ==>
              if op.distance > (if |out| < 36864 then |out| else 32768 + |out| % 4096)
              then FlatRun([op] + ops, out) == None
              else && (op.distance >= 1 ==>
                        FlatRun([op] + ops, out) == FlatRun(ops, CopyBytes(out, op.distance, op.length)))
                   && (op.distance == 0 && |out| + op.length <= 36864 ==>
                        FlatRun([op] + ops, out) == FlatRun(ops, out + seq(op.length, _ => 0)))
                   && (op.distance == 0 && |out| >= 36864 ==>
                        FlatRun([op] + ops, out) == FlatRun(ops, CopyBytes(out, 36864, op.length)))
  {
    hide RepeatBytes, CopyBytes;
    assert ([op] + ops)[0] == op && ([op] + ops)[1..] == ops;
    if op.RepeatChunk? && op.distance <= Window(|out|) {
      if op.distance >= 1 {
        RepeatIsCopy(out, op.distance, op.length);
      }
      if |out| + op.length <= 36864 {
        ZeroDistanceEarly(out, op.length);
      }
      if |out| >= 36864 {
        ZeroDistanceLate(out, op.length);
      }
    }
  }

  /** A new buffer, any run of operations, and flush: the file is the flat output, in spite of all
      rotations, and the size and the checksum are its size and its checksum. */
  method RunAndFlush(ops: seq<Operation>, sink: Sink, checksummer: Checksummer) returns (sum: int, size: nat)
    requires sink.data == []
    requires FlatRun(ops, []).Some?
    modifies sink
    ensures FlatRun(ops, []).value != [] ==> sink.data == FlatRun(ops, []).value
    ensures FlatRun(ops, []).value == [] ==> sink.data == seq(4096, _ => 0)
    ensures size == |sink.data|
    ensures (&& checksummer([], 0) == 0
             && forall a, b, x :: checksummer(a + b, x) == checksummer(b, checksummer(a, x))) ==>
              sum == checksummer(sink.data, 0) % 4294967296
  {
    hide RepeatBytes;
    var ob := new OutputBuffer(sink, checksummer);
    assert ops[0..] == ops;
    for i := 0 to |ops|
      invariant ob.Valid() && fresh(ob) && fresh(ob.store) && ob.f == sink && ob.checksummer == checksummer
      invariant FlatRun(ops, []) == FlatRun(ops[i..], ob.flat)
    {
      assert ops[i..][0] == ops[i] && ops[i..][1..] == ops[i + 1..];
      PerformOne(ob, ops[i], ops[i..]);
    }
    sum, size := ob.Flush();
  }

  /** One operation of a run that goes well. */
  method PerformOne(ob: OutputBuffer, op: Operation, ghost ops: seq<Operation>)
    requires ob.Valid() && ops != [] && ops[0] == op
    requires FlatRun(ops, ob.flat).Some?
    modifies ob, ob.f, ob.store
    ensures ob.Valid() && FlatRun(ops[1..], ob.flat) == FlatRun(ops, old(ob.flat))
  {
    hide RepeatBytes;
    match op
    case PutByte(b) => ob.PutByte(b);
    case PutBytes(bytes) => ob.PutBytes(bytes);
    case RepeatChunk(length, distance) =>
      ob.BufferedIsWindow();
      var ok := ob.RepeatChunk(length, distance);
  }
}
