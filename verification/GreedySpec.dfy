// The elements that the compressor chooses, as a function of the input and the table size.

module GreedySpec {
  import opened Bytes
  import opened CompressSpec
  import opened Emit
  import opened Format
  import BitScan

  // ---------------------------------------------------------------------------------------------
  // One scan and one match
  // ---------------------------------------------------------------------------------------------

  datatype ScanEnd = Hit(probes: nat) | NoHit

  /** How a scan from ip goes on at probe k, after the positions `filed`: it ends without a hit when the
      probe after this one would be past the limit, and otherwise at the first hit. */
  ghost function Scan(filed: seq<nat>, input: seq<byte>, ip: nat, hash: nat -> nat, k: nat): (r: ScanEnd)
    ensures r.Hit? ==> ProbeHits(filed, input, ip, hash, r.probes)
    ensures r.Hit? ==> ip + ScanDistance(r.probes) + 4 <= |input|
    decreases |input| - ScanDistance(k)
  {
    ScanStep(k);
    if ip + ScanDistance(k + 1) + INPUT_MARGIN > |input| then NoHit
    else if ProbeHits(filed, input, ip, hash, k) then Hit(k)
    else Scan(filed, input, ip, hash, k + 1)
  }

  /** The number of bytes in which the strings at p and q agree. */
  function AgreeingBytes(input: seq<byte>, p: nat, q: nat): (n: nat)
    requires p <= q
    ensures n > 0 ==> q + n <= |input|
    decreases |input| - q
  {
    if q < |input| && input[p] == input[q] then 1 + AgreeingBytes(input, p + 1, q + 1) else 0
  }

  lemma {:induction false} LongestIsCounted(input: seq<byte>, p: nat, q: nat, n: nat)
    requires p <= q <= |input| && LongestMatch(input, p, q, n)
    ensures n == AgreeingBytes(input, p, q)
    decreases n
  {
    if n == 0 {
    } else {
      AgreeAt(input, p, q, n, 0);
      assert input[p + 1..p + n] == input[p..p + n][1..];
      assert input[q + 1..q + n] == input[q..q + n][1..];
      LongestIsCounted(input, p + 1, q + 1, n - 1);
    }
  }

  // ---------------------------------------------------------------------------------------------
  // One block
  // ---------------------------------------------------------------------------------------------

  /** The literal for the bytes between two positions, if any. */
  function Between(input: seq<byte>, from: nat, to: nat): seq<Element> {
    if from < to <= |input| then [Literal(input[from..to])] else []
  }

  /** The elements for the input from nextEmit on, when a scan starts at ip after the positions `filed`:
      a literal up to the first hit and then a match, or else a literal for all the rest. */
  ghost function FromScan(filed: seq<nat>, input: seq<byte>, ip: nat, nextEmit: nat, hash: nat -> nat): seq<Element>
    decreases |input| - ip, 1
  {
    match Scan(filed, input, ip, hash, 0)
    case NoHit => Between(input, nextEmit, |input|)
    case Hit(k) =>
      var p := ip + ScanDistance(k);
      var candidate := Latest(filed + Probed(ip, k), input, hash, hash(Load32(input, p)));
      Between(input, nextEmit, p) + FromMatch(filed + Probed(ip, k + 1), input, candidate, p, hash)
  }

  /** The elements from a match on: copies for the longest match and what comes after it.  Candidates are
      earlier positions. */
  ghost function FromMatch(filed: seq<nat>, input: seq<byte>, candidate: nat, ip: nat, hash: nat -> nat): seq<Element>
    decreases |input| - ip, 0
  {
    if candidate >= ip || AgreeingBytes(input, candidate, ip) == 0 then []
    else
      var n := AgreeingBytes(input, candidate, ip);
      SplitCopy(ip - candidate, n) + AfterMatch(filed, input, ip + n, hash)
  }

  /** After a match the last position of it and the next one are filed.  A further match follows if there
      is a candidate right there, and otherwise a scan from the position after. */
  ghost function AfterMatch(filed: seq<nat>, input: seq<byte>, ip: nat, hash: nat -> nat): seq<Element>
    requires ip > 0
    decreases |input| - ip, 2
  {
    if ip + INPUT_MARGIN >= |input| then Between(input, ip, |input|)
    else
      var before := filed + [ip - 1];
      var candidate := Latest(before, input, hash, hash(Load32(input, ip)));
      if candidate + 4 <= |input| && Load32(input, candidate) == Load32(input, ip)
      then FromMatch(before + [ip], input, candidate, ip, hash)
      else FromScan(before + [ip], input, ip + 1, ip, hash)
  }

  /** What follows the literal before a hit, and the match there. */
  lemma HitTaken(es: seq<Element>, filed: seq<nat>, input: seq<byte>, ip: nat, nextEmit: nat, hash: nat -> nat,
                 k: nat, p: nat, candidate: nat)
    requires Scan(filed, input, ip, hash, 0) == Hit(k)
    requires p == ip + ScanDistance(k) && p + 4 <= |input|
    requires candidate == Latest(filed + Probed(ip, k), input, hash, hash(Load32(input, p)))
    ensures es + FromScan(filed, input, ip, nextEmit, hash)
         == es + Between(input, nextEmit, p) + FromMatch(filed + Probed(ip, k + 1), input, candidate, p, hash)
  {
    hide FromMatch, ScanDistance, Latest, Probed, Between, Load32;
  }

  lemma NoHitTaken(filed: seq<nat>, input: seq<byte>, ip: nat, nextEmit: nat, hash: nat -> nat)
    requires Scan(filed, input, ip, hash, 0) == NoHit
    ensures FromScan(filed, input, ip, nextEmit, hash) == Between(input, nextEmit, |input|)
  {
  }

  /** One probe of a scan. */
  lemma ScanGoesOn(filed: seq<nat>, input: seq<byte>, ip: nat, hash: nat -> nat, k: nat)
    ensures Scan(filed, input, ip, hash, k) ==
            if ip + ScanDistance(k + 1) + 15 > |input| then NoHit
            else if ProbeHits(filed, input, ip, hash, k) then Hit(k)
            else Scan(filed, input, ip, hash, k + 1)
  {
  }

  /** What follows the copies that a match is. */
  lemma MatchTaken(es: seq<Element>, filed: seq<nat>, input: seq<byte>, candidate: nat, ip: nat, next: nat,
                   hash: nat -> nat)
    requires candidate < ip < next <= |input| && LongestMatch(input, candidate, ip, next - ip)
    ensures es + FromMatch(filed, input, candidate, ip, hash)
         == es + SplitCopy(ip - candidate, next - ip) + AfterMatch(filed, input, next, hash)
  {
    hide AfterMatch, LongestMatch, SplitCopy;
    LongestIsCounted(input, candidate, ip, next - ip);
  }

  lemma NothingAfterMatch(filed: seq<nat>, input: seq<byte>, ip: nat, hash: nat -> nat)
    requires ip > 0 && ip + 15 >= |input|
    ensures AfterMatch(filed, input, ip, hash) == Between(input, ip, |input|)
  {
  }

  /** The look at the position behind a match. */
  lemma LookTaken(filed: seq<nat>, input: seq<byte>, ip: nat, hash: nat -> nat, candidate: nat)
    requires ip > 0 && ip + 15 < |input| && candidate + 4 <= |input|
    requires candidate == Latest(filed + [ip - 1], input, hash, hash(Load32(input, ip)))
    ensures AfterMatch(filed, input, ip, hash) ==
            if Load32(input, candidate) == Load32(input, ip)
            then FromMatch(filed + [ip - 1] + [ip], input, candidate, ip, hash)
            else FromScan(filed + [ip - 1] + [ip], input, ip + 1, ip, hash)
  {
    hide Latest, FromMatch, FromScan, Load32;
  }

  /** The elements of a block. */
  ghost function Fragment(input: seq<byte>, hash: nat -> nat): seq<Element> {
    if |input| < INPUT_MARGIN then Between(input, 0, |input|) else FromScan([], input, 1, 0, hash)
  }

  lemma FragmentStarts(input: seq<byte>, hash: nat -> nat)
    ensures |input| < 15 ==> Fragment(input, hash) == if input == [] then [] else [Literal(input)]
    ensures |input| >= 15 ==> Fragment(input, hash) == FromScan([], input, 1, 0, hash)
  {
    assert input[0..|input|] == input;
  }

  // ---------------------------------------------------------------------------------------------
  // The whole buffer
  // ---------------------------------------------------------------------------------------------

  /** The table size for a block of n bytes: the whole table for a full block, and for a shorter one the
      smallest size that has an entry for each byte, if there is one. */
  function TableSize(n: nat, power: nat): (size: nat)
    requires power >= 9
    ensures 9 <= size <= power
  {
    if n >= BLOCK_SIZE then power else SmallestSize(n, 9, power)
  }

  function SmallestSize(n: nat, from: nat, power: nat): (size: nat)
    requires 1 <= from <= power
    ensures from <= size <= power
    decreases power - from
  {
    if from == power || BitScan.Pow2(from - 1) >= n then from else SmallestSize(n, from + 1, power)
  }

  ghost function BlockElements(block: seq<byte>, power: nat): seq<Element>
    requires 9 <= power <= 16
  {
    Fragment(block, HashFor(TableSize(|block|, power)))
  }

  function BlockCount(n: nat): nat {
    (n + BLOCK_SIZE - 1) / BLOCK_SIZE
  }

  /** The elements of the first k blocks. */
  ghost function BlockList(input: seq<byte>, power: nat, k: nat): seq<seq<Element>>
    requires 9 <= power <= 16 && BLOCK_SIZE * k < |input| + BLOCK_SIZE
  {
    if k == 0 then [] else BlockList(input, power, k - 1) + [BlockElements(Block(input, k - 1), power)]
  }

  /** The elements of the input: a function of the input and the size of the working memory, not of what
      that memory held before. */
  ghost function CompressedElements(input: seq<byte>, power: nat): seq<Element>
    requires 9 <= power <= 16
  {
    Flatten(BlockList(input, power, BlockCount(|input|)))
  }

  lemma BlockListGrows(input: seq<byte>, power: nat, k: nat)
    requires 9 <= power <= 16 && BLOCK_SIZE * k < |input|
    ensures BlockList(input, power, k + 1) == BlockList(input, power, k) + [BlockElements(Block(input, k), power)]
  {
  }

  lemma NoBlockListed(input: seq<byte>, power: nat)
    requires 9 <= power <= 16
    ensures BlockList(input, power, 0) == []
  {
  }

  lemma AllBlocksListed(input: seq<byte>, power: nat, blocks: seq<seq<Element>>)
    requires 9 <= power <= 16
    requires |input| <= BLOCK_SIZE * |blocks| < |input| + BLOCK_SIZE
    requires blocks == BlockList(input, power, |blocks|)
    ensures Flatten(blocks) == CompressedElements(input, power)
  {
    assert |blocks| == BlockCount(|input|);
  }
}
