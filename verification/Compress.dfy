// The block compressor and the whole-buffer compressor.

module Compress {
  import BitScan
  import opened Bytes
  import opened CompressSpec
  import opened Emit
  import opened Format
  import opened GreedySpec
  import MatchLength
  import Varint

  /** Store a position in the hash table. */
  method FileUnder(table: array<uint16>, size: nat, k: nat, p: uint16, ghost filed: seq<nat>,
                   input: seq<byte>, ip: nat, hash: nat -> nat)
    requires size <= table.Length && k < size
    requires p + 4 <= |input| && hash(Load32(input, p)) == k && p < ip
    requires TableOk(table[..], size, filed, input, ip, hash)
    modifies table
    ensures TableOk(table[..], size, filed + [p], input, ip, hash)
    ensures table[k] == p && forall j :: 0 <= j < table.Length && j != k ==> table[j] == old(table[j])
    ensures table[..] == old(table[..])[k := p]
  {
    hide TableOk;
    ghost var before := table[..];
    table[k] := p;
    OneMoreFiled(before, table[..], size, filed, p, k, input, ip, hash);
  }

  /** Step 1: scan forward for a position whose word also occurs at the candidate its hash leads to.
      The probe that succeeds is the first that can; without one, the scan ends where the next probe
      would be past the limit. */
  method FindCandidate(hash: nat -> nat, input: seq<byte>, table: array<uint16>, size: nat,
                       ip0: nat, nextHash0: nat, ghost filed: seq<nat>)
    returns (found: bool, ip: nat, candidate: nat, ghost probes: nat)
    requires INPUT_MARGIN <= |input| <= BLOCK_SIZE
    requires 1 <= ip0 && ip0 + 4 <= |input|
    requires size <= table.Length && HashesInto(hash, size)
    requires TableOk(table[..], size, filed, input, ip0, hash)
    requires nextHash0 == hash(Load32(input, ip0))
    modifies table
    ensures found ==> ip0 <= ip < |input| - 15 && candidate < ip
    ensures found ==> Agree(input, candidate, ip, 4)
    ensures ip == ip0 + ScanDistance(probes) && ip + 4 <= |input|
    ensures !found <==> ip0 + ScanDistance(probes + 1) > |input| - 15
    ensures found ==> hash(Load32(input, ip)) < table.Length
    ensures found ==>
              || (exists k :: 0 <= k < probes && candidate == ip0 + ScanDistance(k)
                             && hash(Load32(input, candidate)) == hash(Load32(input, ip))
                             && forall m :: k < m < probes && ip0 + ScanDistance(m) + 4 <= |input| ==>
                                  hash(Load32(input, ip0 + ScanDistance(m))) != hash(Load32(input, ip)))
              || (&& candidate == old(table[hash(Load32(input, ip))])
                  && forall m :: 0 <= m < probes && ip0 + ScanDistance(m) + 4 <= |input| ==>
                       hash(Load32(input, ip0 + ScanDistance(m))) != hash(Load32(input, ip)))
    ensures found ==> candidate == Latest(filed + Probed(ip0, probes), input, hash, hash(Load32(input, ip)))
    ensures found ==> TableOk(table[..], size, filed + Probed(ip0, probes + 1), input, ip + 1, hash)
    ensures !found ==> TableOk(table[..], size, filed + Probed(ip0, probes), input, ip, hash)
    ensures forall k :: 0 <= k < probes ==> !ProbeHits(filed, input, ip0, hash, k)
    ensures found ==> ProbeHits(filed, input, ip0, hash, probes)
    ensures Scan(filed, input, ip0, hash, 0) == if found then Hit(probes) else NoHit
  {
    hide LittleEndian, Agree, TableOk, ScanDistance, Load32, Latest, Probed, ProbeHits, Scan;
    ScanStart();
    ProbedNone(filed, ip0);
    var ipLimit := |input| - INPUT_MARGIN;
    var skip, nextIp, nextHash := 32, ip0, nextHash0;
    probes := 0;
    while true
      invariant ip0 <= nextIp && nextIp + 4 <= |input|
      invariant nextHash == hash(Load32(input, nextIp))
      invariant TableOk(table[..], size, filed + Probed(ip0, probes), input, nextIp, hash)
      invariant skip == 32 + probes
      invariant nextIp == ip0 + ScanDistance(probes)
      invariant Scan(filed, input, ip0, hash, 0) == Scan(filed, input, ip0, hash, probes)
      invariant forall k :: 0 <= k < probes ==> !ProbeHits(filed, input, ip0, hash, k)
      decreases |input| - nextIp
    {
      ScanStep(probes);
      ScanGoesOn(filed, input, ip0, hash, probes);
      ip := nextIp;
      var h := nextHash;
      nextIp := ip + skip / 32;
      skip := skip + 1;
      if nextIp > ipLimit {
        return false, ip, 0, probes;
      }
      nextHash := hash(Load32(input, nextIp));
      candidate := table[h];
      EntryIsLatest(table[..], size, filed + Probed(ip0, probes), h, input, ip, hash);
      ProbeDecides(filed, input, ip0, hash, probes, ip, candidate);
      TableAge(table[..], size, filed + Probed(ip0, probes), input, ip, ip + 1, hash);
      FileUnder(table, size, h, ip, filed + Probed(ip0, probes), input, ip + 1, hash);
      ProbedOneMore(filed, ip0, probes);
      if Load32(input, ip) == Load32(input, candidate) {
        AgreementFromLoads(input, candidate, ip);
        LatestProbe(filed, input, ip0, hash, probes, h);
        EntryBefore(old(table[..]), size, filed, h, input, ip0, hash);
        return true, ip, candidate, probes;
      }
      TableAge(table[..], size, filed + Probed(ip0, probes + 1), input, ip + 1, nextIp, hash);
      probes := probes + 1;
    }
  }

  lemma ProbedNone(filed: seq<nat>, ip: nat)
    ensures filed + Probed(ip, 0) == filed
  {
  }

  lemma ProbedOneMore(filed: seq<nat>, ip: nat, probes: nat)
    ensures filed + Probed(ip, probes + 1) == filed + Probed(ip, probes) + [ip + ScanDistance(probes)]
  {
  }

  lemma EntryIsLatest(table: seq<uint16>, size: nat, filed: seq<nat>, h: nat, input: seq<byte>, ip: nat,
                      hash: nat -> nat)
    requires size <= |table| && h < size && ip >= 1 && |input| >= 4
    requires TableOk(table, size, filed, input, ip, hash)
    ensures table[h] == Latest(filed, input, hash, h) && table[h] < ip && table[h] + 4 <= |input|
  {
    LatestIsBefore(filed, input, ip, hash, h);
  }

  lemma EntryBefore(table: seq<uint16>, size: nat, filed: seq<nat>, h: nat, input: seq<byte>, ip: nat,
                    hash: nat -> nat)
    requires size <= |table| && h < size
    requires TableOk(table, size, filed, input, ip, hash)
    ensures table[h] == Latest(filed, input, hash, h)
  {
  }

  /** What the comparison of one probe means. */
  lemma ProbeDecides(filed: seq<nat>, input: seq<byte>, ip0: nat, hash: nat -> nat, probes: nat, ip: nat,
                     candidate: nat)
    requires ip == ip0 + ScanDistance(probes) && ip + 4 <= |input| && candidate + 4 <= |input|
    requires candidate == Latest(filed + Probed(ip0, probes), input, hash, hash(Load32(input, ip)))
    ensures ProbeHits(filed, input, ip0, hash, probes) <==> Load32(input, ip) == Load32(input, candidate)
  {
    hide Load32, ScanDistance, Latest, Probed;
  }

  /** The head of step 3: find the whole match and emit it as copies. */
  method EmitMatch(input: seq<byte>, candidate: nat, base: nat,
                   out: array<byte>, op0: nat, ghost pre: seq<byte>, ghost es0: seq<Element>)
    returns (ip: nat, op: nat, ghost es: seq<Element>)
    requires |input| <= BLOCK_SIZE
    requires candidate < base && base + 4 <= |input| && Agree(input, candidate, base, 4)
    requires |pre| <= op0 && |pre| + MaxFragment(|input|) <= out.Length && op0 <= out.Length
    requires Emitted(out[..op0], pre, es0, input[..base])
    requires Owing(op0 - |pre|, base)
    modifies out
    ensures base + 4 <= ip <= |input|
    ensures LongestMatch(input, candidate, base, ip - base)
    ensures es == es0 + SplitCopy(base - candidate, ip - base)
    ensures |pre| <= op <= out.Length && Emitted(out[..op], pre, es, input[..ip])
    ensures Paid(op - |pre|, ip)
    ensures forall j :: |pre| + MaxFragment(|input|) <= j < out.Length ==> out[j] == old(out[j])
  {
    hide CopyCode, CopyBytes, Emitted, Agree;
    var more := MatchLength.FindMatchLength(input[candidate + 4..candidate + |input| - base], input[base + 4..]);
    WholeMatch(input, candidate, base, more);
    var matched := 4 + more;
    ip := base + matched;
    var offset := base - candidate;
    CopyBudget(op0 - |pre|, base, |CopyCode(offset, matched)|, matched);
    PaidFits(op0 - |pre| + |CopyCode(offset, matched)|, ip, |input|);
    EmittedCopy(out[..op0], pre, es0, input[..base], offset, matched);
    MatchIsCopy(input, candidate, base, matched);
    op := EmitCopy(out, op0, offset, matched);
    es := es0 + SplitCopy(offset, matched);
  }

  /** Four matching bytes and the match length after them make the whole match length. */
  lemma WholeMatch(s: seq<byte>, p: nat, q: nat, more: nat)
    requires p < q && q + 4 <= |s|
    requires Agree(s, p, q, 4)
    requires MatchLength.IsMatchLength(s[p + 4..p + |s| - q], s[q + 4..], more)
    ensures LongestMatch(s, p, q, 4 + more)
  {
    SliceOfSlice(s, p + 4, p + |s| - q, 0, more);
    SliceOfSlice(s, q + 4, |s|, 0, more);
    assert s[q + 4..|s|] == s[q + 4..];
    assert s[p..p + (4 + more)] == s[p..p + 4] + s[p + 4..p + 4 + more];
    assert s[q..q + (4 + more)] == s[q..q + 4] + s[q + 4..q + 4 + more];
  }

  /** The rest of step 3: file the last two positions, and see whether another copy can follow. */
  method LookAgain(hash: nat -> nat, input: seq<byte>, table: array<uint16>, size: nat, ip: nat,
                   ghost filed: seq<nat>)
    returns (again: bool, candidate: nat, nextHash: nat)
    requires INPUT_MARGIN <= |input| <= BLOCK_SIZE
    requires 1 <= ip < |input| - INPUT_MARGIN
    requires size <= table.Length && HashesInto(hash, size)
    requires TableOk(table[..], size, filed, input, ip, hash)
    modifies table
    ensures hash(Load32(input, ip - 1)) < table.Length && hash(Load32(input, ip)) < table.Length
    ensures table[..] == old(table[..])[hash(Load32(input, ip - 1)) := ip - 1][hash(Load32(input, ip)) := ip]
    ensures candidate == if hash(Load32(input, ip - 1)) == hash(Load32(input, ip)) then ip - 1
                         else old(table[hash(Load32(input, ip))])
    ensures candidate == Latest(filed + [ip - 1], input, hash, hash(Load32(input, ip)))
    ensures TableOk(table[..], size, filed + [ip - 1] + [ip], input, ip + 1, hash)
    ensures candidate < ip && again == (Load32(input, candidate) == Load32(input, ip))
    ensures again ==> Agree(input, candidate, ip, 4)
    ensures nextHash == hash(Load32(input, ip + 1))
  {
    hide LittleEndian, Agree, GetUint32AtOffset, Load32, TableOk, Latest;
    var inputBytes := Load64(input, ip - 1);
    WordAtOffset(input, ip - 1, 0);
    WordAtOffset(input, ip - 1, 1);
    WordAtOffset(input, ip - 1, 2);
    assert ip - 1 + 1 == ip && ip - 1 + 2 == ip + 1;
    var prevHash := hash(GetUint32AtOffset(inputBytes, 0));
    FileUnder(table, size, prevHash, ip - 1, filed, input, ip, hash);
    var curHash := hash(GetUint32AtOffset(inputBytes, 1));
    candidate := table[curHash];
    EntryIsLatest(table[..], size, filed + [ip - 1], curHash, input, ip, hash);
    var candidateBytes := Load32(input, candidate);
    TableAge(table[..], size, filed + [ip - 1], input, ip, ip + 1, hash);
    FileUnder(table, size, curHash, ip, filed + [ip - 1], input, ip + 1, hash);
    again := GetUint32AtOffset(inputBytes, 1) == candidateBytes;
    if again {
      AgreementFromLoads(input, candidate, ip);
    }
    nextHash := hash(GetUint32AtOffset(inputBytes, 2));
  }

  /** Step 3: one or more copies in a row. */
  method EmitMatches(hash: nat -> nat, input: seq<byte>, table: array<uint16>, size: nat,
                     candidate0: nat, ip0: nat, ghost filed0: seq<nat>,
                     out: array<byte>, op0: nat, ghost pre: seq<byte>, ghost es0: seq<Element>)
    returns (finished: bool, ip: nat, nextHash: nat, op: nat, ghost es: seq<Element>, ghost filed: seq<nat>)
    requires INPUT_MARGIN <= |input| <= BLOCK_SIZE
    requires candidate0 < ip0 && ip0 + 4 <= |input| && Agree(input, candidate0, ip0, 4)
    requires size <= table.Length && HashesInto(hash, size)
    requires TableOk(table[..], size, filed0, input, ip0 + 1, hash)
    requires |pre| <= op0 <= out.Length && |pre| + MaxFragment(|input|) <= out.Length
    requires Emitted(out[..op0], pre, es0, input[..ip0])
    requires Owing(op0 - |pre|, ip0)
    modifies table, out
    ensures ip0 < ip <= |input|
    ensures |pre| <= op <= out.Length && Emitted(out[..op], pre, es, input[..ip])
    ensures Paid(op - |pre|, ip)
    ensures es0 + FromMatch(filed0, input, candidate0, ip0, hash)
         == es + if finished then Between(input, ip, |input|) else FromScan(filed, input, ip + 1, ip, hash)
    ensures finished <==> ip >= |input| - 15
    ensures !finished ==>
              && TableOk(table[..], size, filed, input, ip + 1, hash)
              && nextHash == hash(Load32(input, ip + 1))
    ensures forall j :: |pre| + MaxFragment(|input|) <= j < out.Length ==> out[j] == old(out[j])
  {
    hide Emitted, Agree, TableOk, LittleEndian, Load32, LongestMatch, SplitCopy, FromMatch, FromScan,
         AfterMatch, Latest, Between, HashesInto;
    var ipLimit := |input| - INPUT_MARGIN;
    var candidate: nat := candidate0;
    ip, op, es, nextHash, filed := ip0, op0, es0, 0, filed0;
    ghost var goal := es0 + FromMatch(filed0, input, candidate, ip, hash);
    while true
      invariant ip0 <= ip && ip + 4 <= |input| && candidate < ip && Agree(input, candidate, ip, 4)
      invariant TableOk(table[..], size, filed, input, ip + 1, hash)
      invariant |pre| <= op <= out.Length
      invariant Emitted(out[..op], pre, es, input[..ip])
      invariant es + FromMatch(filed, input, candidate, ip, hash) == goal
      invariant Owing(op - |pre|, ip)
      invariant forall j :: |pre| + MaxFragment(|input|) <= j < out.Length ==> out[j] == old(out[j])
      decreases |input| - ip
    {
      ghost var before, offered, done := ip, candidate, es;
      ip, op, es := EmitMatch(input, candidate, ip, out, op, pre, es);
      MatchTaken(done, filed, input, offered, before, ip, hash);
      if ip >= ipLimit {
        NothingAfterMatch(filed, input, ip, hash);
        finished := true;
        return;
      }
      TableAge(table[..], size, filed, input, before + 1, ip, hash);
      var again;
      again, candidate, nextHash := LookAgain(hash, input, table, size, ip, filed);
      LookTaken(filed, input, ip, hash, candidate);
      filed := filed + [ip - 1] + [ip];
      if !again {
        finished := false;
        return;
      }
    }
  }

  /** Steps 1 and 2 and the first part of the budget: the literal before a match. */
  method EmitPending(input: seq<byte>, nextEmit: nat, ip: nat, fast: bool,
                     out: array<byte>, op0: nat, ghost pre: seq<byte>, ghost es0: seq<Element>)
    returns (op: nat, ghost es: seq<Element>)
    requires nextEmit < ip <= |input| <= BLOCK_SIZE
    requires fast ==> nextEmit + 16 <= |input|
    requires |pre| <= op0 <= out.Length && |pre| + MaxFragment(|input|) <= out.Length
    requires Emitted(out[..op0], pre, es0, input[..nextEmit])
    requires Paid(op0 - |pre|, nextEmit)
    modifies out
    ensures |pre| <= op <= out.Length && Emitted(out[..op], pre, es, input[..ip])
    ensures es == es0 + Between(input, nextEmit, ip) == es0 + [Literal(input[nextEmit..ip])]
    ensures Owing(op - |pre|, ip) && op - |pre| <= MaxFragment(|input|)
    ensures forall j :: |pre| + MaxFragment(|input|) <= j < out.Length ==> out[j] == old(out[j])
  {
    hide Emitted, EncodeElement, LiteralHeader;
    var len := ip - nextEmit;
    LiteralBudget(op0 - |pre|, nextEmit, len);
    if fast && len <= 16 {
      FastLiteralBudget(op0 - |pre|, nextEmit, |input|);
    }
    EmittedLiteral(out[..op0], pre, es0, input[..nextEmit], input[nextEmit..ip]);
    assert input[..ip] == input[..nextEmit] + input[nextEmit..ip];
    assert nextEmit + len == ip;
    op := EmitLiteral(out, op0, input, nextEmit, len, fast);
    es := es0 + [Literal(input[nextEmit..ip])];
  }

  /** memset of the table, which makes its previous contents irrelevant. */
  method ClearTable(table: array<uint16>, size: nat)
    requires size <= table.Length
    modifies table
    ensures forall k :: 0 <= k < size ==> table[k] == 0
  {
    forall i | 0 <= i < size {
      table[i] := 0;
    }
  }

  /** csnappy_compress_fragment, for any hash function into the table. */
  method CompressFragment(hash: nat -> nat, input: seq<byte>, out: array<byte>, op0: nat,
                          table: array<uint16>, power: nat)
    returns (op: nat, ghost es: seq<Element>)
    requires |input| <= BLOCK_SIZE
    requires op0 + MaxFragment(|input|) <= out.Length
    requires 9 <= power <= 16 && BitScan.Pow2(power - 1) <= table.Length
    requires HashesInto(hash, BitScan.Pow2(power - 1))
    modifies table, out
    ensures op0 <= op <= op0 + |input| + |input| / 65 + 3
    ensures Emitted(out[..op], old(out[..op0]), es, input)
    ensures es == Fragment(input, hash)
    ensures |input| < 15 ==> es == if input == [] then [] else [Literal(input)]
    ensures forall j :: op0 + MaxFragment(|input|) <= j < out.Length ==> out[j] == old(out[j])
  {
    hide Emitted, EncodeElement, LiteralHeader, Agree, TableOk, LittleEndian, Load32,
         ScanDistance, BitScan.Pow2, HashesInto, FromScan;
    FragmentStarts(input, hash);
    var size := BitScan.Pow2(power - 1);
    ghost var pre := out[..op0];
    op, es := op0, [];
    var nextEmit := 0;
    assert input[..0] == [];
    EmittedNothing(pre);
    if INPUT_MARGIN <= |input| {
      op, nextEmit, es := MainLoop(hash, input, out, op, table, size, pre);
    }
    PaidFits(op - op0, nextEmit, |input|);
    assert input[..|input|] == input;
    if nextEmit < |input| {
      op, es := EmitPending(input, nextEmit, |input|, false, out, op, pre, es);
    }
  }

  /** main_loop: literals and runs of copies in turn, until the margin is reached. */
  method MainLoop(hash: nat -> nat, input: seq<byte>, out: array<byte>, op0: nat,
                  table: array<uint16>, size: nat, ghost pre: seq<byte>)
    returns (op: nat, nextEmit: nat, ghost es: seq<Element>)
    requires INPUT_MARGIN <= |input| <= BLOCK_SIZE
    requires |pre| == op0 && op0 + MaxFragment(|input|) <= out.Length
    requires size <= table.Length && HashesInto(hash, size)
    requires Emitted(out[..op0], pre, [], [])
    modifies table, out
    ensures nextEmit <= |input|
    ensures es + Between(input, nextEmit, |input|) == Fragment(input, hash)
    ensures |pre| <= op <= out.Length && Emitted(out[..op], pre, es, input[..nextEmit])
    ensures Paid(op - |pre|, nextEmit)
    ensures forall j :: |pre| + MaxFragment(|input|) <= j < out.Length ==> out[j] == old(out[j])
  {
    hide Emitted, EncodeElement, LiteralHeader, Agree, TableOk, LittleEndian, Load32,
         ScanDistance, HashesInto, FromScan, FromMatch, Fragment, Between, Probed, Latest, Scan;
    ClearTable(table, size);
    EmptyTable(table[..], size, input, hash);
    FragmentStarts(input, hash);
    ghost var filed := [];
    var ip := 1;
    var nextHash := hash(Load32(input, ip));
    op, nextEmit, es := op0, 0, [];
    assert input[..0] == [];
    while true
      invariant nextEmit < ip && ip + 4 <= |input|
      invariant nextHash == hash(Load32(input, ip))
      invariant TableOk(table[..], size, filed, input, ip, hash)
      invariant |pre| <= op <= out.Length && Emitted(out[..op], pre, es, input[..nextEmit])
      invariant es + FromScan(filed, input, ip, nextEmit, hash) == Fragment(input, hash)
      invariant Paid(op - |pre|, nextEmit)
      invariant forall j :: |pre| + MaxFragment(|input|) <= j < out.Length ==> out[j] == old(out[j])
      decreases |input| - ip
    {
      var found, candidate;
      ghost var probes;
      ghost var start, done := ip, es;
      found, ip, candidate, probes := FindCandidate(hash, input, table, size, ip, nextHash, filed);
      if !found {
        NoHitTaken(filed, input, start, nextEmit, hash);
        return;
      }
      HitTaken(done, filed, input, start, nextEmit, hash, probes, ip, candidate);
      filed := filed + Probed(start, probes + 1);
      assert nextEmit + 16 <= |input|;
      op, es := EmitPending(input, nextEmit, ip, true, out, op, pre, es);
      var finished;
      finished, nextEmit, nextHash, op, es, filed :=
        EmitMatches(hash, input, table, size, candidate, ip, filed, out, op, pre, es);
      if finished {
        return;
      }
      ip := nextEmit + 1;
    }
  }

  // ---------------------------------------------------------------------------------------------
  // The whole buffer
  // ---------------------------------------------------------------------------------------------

  /** csnappy_max_compressed_length, in 32-bit arithmetic. */
  function MaxCompressedLength(n: uint32): uint32 {
    (32 + n + n / 6) % 0x1_0000_0000
  }

  /** The announced bound is the intended one exactly for inputs of up to 3681400511 bytes; beyond,
      the sum wraps around and the bound is below the input size. */
  lemma MaxCompressedLengthWraps(n: uint32)
    ensures MaxCompressedLength(n) == 32 + n + n / 6 <==> n <= 3681400511
    ensures n > 3681400511 ==> MaxCompressedLength(n) < n
  {
    var q, r := n / 6, n % 6;
    assert n == 6 * q + r;
  }

  /** The choice of a smaller table for a short block. */
  method ChooseTableSize(numToRead: nat, power: nat) returns (size: nat)
    requires 1 <= numToRead <= BLOCK_SIZE && 9 <= power <= 16
    ensures 9 <= size <= power
    ensures numToRead == 32768 ==> size == power
    ensures size < power ==> numToRead <= BitScan.Pow2(size - 1)
    ensures numToRead < 32768 && 9 < size ==> BitScan.Pow2(size - 2) < numToRead
    ensures size == TableSize(numToRead, power)
  {
    size := power;
    if numToRead < BLOCK_SIZE {
      size := 9;
      while size < power
        invariant 9 <= size <= power
        invariant SmallestSize(numToRead, 9, power) == SmallestSize(numToRead, size, power)
        invariant 9 < size ==> BitScan.Pow2(size - 2) < numToRead
      {
        if BitScan.Pow2(size - 1) >= numToRead {
          break;
        }
        size := size + 1;
      }
    }
  }

  /** What has been written before block k, which starts at byte pos. */
  predicate BlocksPaid(written: nat, pos: nat, k: nat) {
    written <= 5 + pos + pos / 65 + 3 * k
  }

  lemma BlockBudget(written: nat, pos: nat, k: nat, m: nat, n: nat, end: nat)
    requires BlocksPaid(written, pos, k) && pos == BLOCK_SIZE * k && pos + m <= n
    requires end <= written + MaxFragment(m)
    ensures written + MaxFragment(m) <= 32 + n + n / 6
    ensures BlocksPaid(end, pos + m, k + 1)
  {
    assert pos / 65 + m / 65 <= (pos + m) / 65;
  }

  /** Blocks are independent: the code of a further block, which means that block on its own, can be
      appended to any code, because its copies do not reach out of the block. */
  lemma BlocksAreIndependent(pre: seq<byte>, w: seq<byte>, es: seq<Element>, data: seq<byte>,
                             w': seq<byte>, fs: seq<Element>, block: seq<byte>)
    requires Emitted(w, pre, es, data) && Emitted(w', w, fs, block)
    ensures Emitted(w', pre, es + fs, data + block)
  {
    hide EncodeAll, Eval;
    EncodeAllConcat(es, fs);
    EvalConcat(es, fs, []);
    assert data + [] == data;
    EvalIsLocal(fs, data, []);
    assert [] + block == block;
  }

  /** One round of the block loop. */
  method CompressBlock(input: seq<byte>, pos: nat, ghost k: nat, compressed: array<byte>, written: nat,
                       table: array<uint16>, power: nat, ghost pre: seq<byte>, ghost es0: seq<Element>)
    returns (next: nat, end: nat, ghost es: seq<Element>, ghost fs: seq<Element>)
    requires pos < |input| && pos == BLOCK_SIZE * k
    requires 32 + |input| + |input| / 6 <= compressed.Length
    requires 9 <= power <= 16 && BitScan.Pow2(power - 1) <= table.Length
    requires BlocksPaid(written, pos, k) && written <= compressed.Length
    requires Emitted(compressed[..written], pre, es0, input[..pos])
    modifies table, compressed
    ensures pos < next == if BLOCK_SIZE * (k + 1) < |input| then BLOCK_SIZE * (k + 1) else |input|
    ensures es == es0 + fs && Eval(fs, []) == Some(Block(input, k))
    ensures fs == BlockElements(Block(input, k), power)
    ensures BlocksPaid(end, next, k + 1) && end <= 32 + |input| + |input| / 6
    ensures Emitted(compressed[..end], pre, es, input[..next])
    ensures forall j :: 32 + |input| + |input| / 6 <= j < compressed.Length ==> compressed[j] == old(compressed[j])
  {
    hide Emitted, BitScan.Pow2, HashesInto, Eval, Fragment, TableSize;
    var numToRead := if |input| - pos < BLOCK_SIZE then |input| - pos else BLOCK_SIZE;
    var size := ChooseTableSize(numToRead, power);
    HashFitsTable(size);
    BitScan.Pow2Monotone(size - 1, power - 1);
    next := pos + numToRead;
    var block := input[pos..next];
    ghost var before := compressed[..written];
    BlockBudget(written, pos, k, numToRead, |input|, written);
    end, fs := CompressFragment(HashFor(size), block, compressed, written, table, size);
    MeaningOf(compressed[..end], before, fs, block);
    BlocksAreIndependent(pre, before, es0, input[..pos], compressed[..end], fs, block);
    BlockBudget(written, pos, k, numToRead, |input|, end);
    assert input[..next] == input[..pos] + block;
    es := es0 + fs;
  }

  lemma MeaningOf(w: seq<byte>, pre: seq<byte>, es: seq<Element>, data: seq<byte>)
    requires Emitted(w, pre, es, data)
    ensures Eval(es, []) == Some(data)
  {
  }

  /** csnappy_compress.  The result is the length header followed by the code of elements that mean
      the input, each block of 32768 bytes on its own; which elements is a function of the input and the
      table size.  Every store, surplus included, is within the announced bound, and the size within a
      sharper one. */
  method Compress(input: seq<byte>, compressed: array<byte>, table: array<uint16>, power: nat)
    returns (written: nat, ghost es: seq<Element>, ghost blocks: seq<seq<Element>>)
    requires |input| <= 3681400511
    requires MaxCompressedLength(|input|) <= compressed.Length
    requires 9 <= power <= 16 && BitScan.Pow2(power - 1) <= table.Length
    modifies table, compressed
    ensures written <= MaxCompressedLength(|input|)
    ensures Emitted(compressed[..written], Varint.Header(|input|), es, input)
    ensures |blocks| == (|input| + 32767) / 32768 && Flatten(blocks) == es
    ensures forall k :: 0 <= k < |blocks| ==>
              && 32768 * k < |input|
              && Eval(blocks[k], []) ==
                 Some(input[32768 * k..if 32768 * (k + 1) < |input| then 32768 * (k + 1) else |input|])
    ensures BlockByBlock(blocks, es, input)
    ensures es == CompressedElements(input, power)
    ensures written <= 5 + |input| + |input| / 65 + 3 * |blocks|
    ensures forall j :: MaxCompressedLength(|input|) <= j < compressed.Length ==> compressed[j] == old(compressed[j])
  {
    hide Emitted, Varint.Header, BitScan.Pow2, HashesInto, MaxCompressedLength, BlockByBlock, Eval, Block,
         BlockList, BlockElements, CompressedElements;
    MaxCompressedLengthWraps(|input|);
    Varint.HeaderOfWord(|input|);
    written := Varint.EncodeVarint32(compressed, 0, |input|);
    assert compressed[..written] == Varint.Header(|input|);
    EmittedNothing(Varint.Header(|input|));
    es, blocks := [], [];
    NoBlocks(input);
    NoBlockListed(input, power);
    var pos := 0;
    assert input[..0] == [];
    while pos < |input|
      invariant pos == if BLOCK_SIZE * |blocks| < |input| then BLOCK_SIZE * |blocks| else |input|
      invariant BLOCK_SIZE * |blocks| < |input| + BLOCK_SIZE
      invariant written <= MaxCompressedLength(|input|) && BlocksPaid(written, pos, |blocks|)
      invariant Emitted(compressed[..written], Varint.Header(|input|), es, input[..pos])
      invariant BlockByBlock(blocks, es, input)
      invariant blocks == BlockList(input, power, |blocks|)
      invariant forall j :: MaxCompressedLength(|input|) <= j < compressed.Length ==>
                  compressed[j] == old(compressed[j])
    {
      ghost var fs, done := [], es;
      pos, written, es, fs :=
        CompressBlock(input, pos, |blocks|, compressed, written, table, power, Varint.Header(|input|), es);
      OneMoreBlock(blocks, done, input, fs);
      BlockListGrows(input, power, |blocks|);
      blocks := blocks + [fs];
    }
    assert input[..|input|] == input;
    AllBlocksListed(input, power, blocks);
    BlocksInNumbers(blocks, es, input);
  }

  /** What it is to come block by block, with the block length written out. */
  lemma BlocksInNumbers(blocks: seq<seq<Element>>, es: seq<Element>, input: seq<byte>)
    requires BlockByBlock(blocks, es, input)
    ensures Flatten(blocks) == es
    ensures forall k :: 0 <= k < |blocks| ==>
              && 32768 * k < |input|
              && Eval(blocks[k], []) ==
                 Some(input[32768 * k..if 32768 * (k + 1) < |input| then 32768 * (k + 1) else |input|])
  {
    hide Eval;
  }

  lemma NoBlocks(input: seq<byte>)
    ensures BlockByBlock([], [], input)
  {
  }
}
