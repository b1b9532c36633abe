// What the compressor keeps: the emitted code means the input consumed, within its size budget.

module CompressSpec {
  import BitScan
  import opened Bytes
  import opened Emit
  import opened Format

  const BLOCK_SIZE: nat := 0x8000
  const INPUT_MARGIN: nat := 15

  // ---------------------------------------------------------------------------------------------
  // Meaning of what has been emitted
  // ---------------------------------------------------------------------------------------------

  /** No offset reaches further back than a block is long. */
  ghost predicate OffsetsWithinBlock(es: seq<Element>) {
    forall e :: e in es ==> e.Copy? ==> e.offset < BLOCK_SIZE
  }

  /** `written` is `pre` followed by the code of es, and es on their own produce `data`. */
  ghost predicate Emitted(written: seq<byte>, pre: seq<byte>, es: seq<Element>, data: seq<byte>) {
    && AllEncodable(es)
    && OffsetsWithinBlock(es)
    && written == pre + EncodeAll(es)
    && Eval(es, []) == Some(data)
  }

  function Flatten(blocks: seq<seq<Element>>): seq<Element> {
    if blocks == [] then [] else Flatten(blocks[..|blocks| - 1]) + blocks[|blocks| - 1]
  }

  /** The k-th block of the input. */
  function Block(input: seq<byte>, k: nat): seq<byte>
    requires BLOCK_SIZE * k <= |input|
  {
    input[BLOCK_SIZE * k..if BLOCK_SIZE * (k + 1) < |input| then BLOCK_SIZE * (k + 1) else |input|]
  }

  /** The elements come in groups, one for each block in turn, and each group evaluates on its own to
      its block: no copy reaches into another block. */
  ghost predicate BlockByBlock(blocks: seq<seq<Element>>, es: seq<Element>, input: seq<byte>) {
    && Flatten(blocks) == es
    && (forall k :: 0 <= k < |blocks| ==>
          BLOCK_SIZE * k < |input| && Eval(blocks[k], []) == Some(Block(input, k)))
  }

  lemma OneMoreBlock(blocks: seq<seq<Element>>, es: seq<Element>, input: seq<byte>, fs: seq<Element>)
    requires BlockByBlock(blocks, es, input) && BLOCK_SIZE * |blocks| < |input|
    requires Eval(fs, []) == Some(Block(input, |blocks|))
    ensures BlockByBlock(blocks + [fs], es + fs, input)
  {
    hide Eval, Block;
    assert (blocks + [fs])[..|blocks|] == blocks;
  }

  lemma EmittedNothing(pre: seq<byte>)
    ensures Emitted(pre, pre, [], [])
  {
  }

  /** Appending one literal. */
  lemma EmittedLiteral(written: seq<byte>, pre: seq<byte>, es: seq<Element>, data: seq<byte>, bytes: seq<byte>)
    requires Emitted(written, pre, es, data)
    requires 1 <= |bytes| <= 0x1_0000_0000
    ensures Emitted(written + EncodeElement(Literal(bytes)), pre, es + [Literal(bytes)], data + bytes)
  {
    hide EncodeAll, Eval, EncodeElement;
    var e := Literal(bytes);
    EncodeAllOne(e);
    EncodeAllConcat(es, [e]);
    EvalConcat(es, [e], []);
    EvalOne(e, data);
  }

  /** Appending one long copy. */
  lemma EmittedCopy(written: seq<byte>, pre: seq<byte>, es: seq<Element>, data: seq<byte>,
                    offset: nat, len: nat)
    requires Emitted(written, pre, es, data)
    requires 1 <= offset <= |data| && offset < BLOCK_SIZE && len >= 4
    ensures Emitted(written + CopyCode(offset, len), pre, es + SplitCopy(offset, len),
                    CopyBytes(data, offset, len))
  {
    hide EncodeAll, Eval, SplitCopy, CopyBytes;
    var fs := SplitCopy(offset, len);
    SplitCopyPieces(offset, len);
    EncodeAllConcat(es, fs);
    EvalConcat(es, fs, []);
    SplitCopyMeaning(data, offset, len);
  }

  /** The n bytes at p are the n bytes at q. */
  ghost predicate Agree(s: seq<byte>, p: nat, q: nat, n: nat)
    requires p + n <= |s| && q + n <= |s|
  {
    s[p..p + n] == s[q..q + n]
  }

  lemma AgreeAt(s: seq<byte>, p: nat, q: nat, n: nat, k: nat)
    requires p + n <= |s| && q + n <= |s|
    requires Agree(s, p, q, n) && k < n
    ensures s[p + k] == s[q + k]
  {
    assert s[p..p + n][k] == s[q..q + n][k];
  }

  lemma AgreementFromLoads(s: seq<byte>, p: nat, q: nat)
    requires p + 4 <= |s| && q + 4 <= |s|
    requires Load32(s, p) == Load32(s, q)
    ensures Agree(s, p, q, 4)
  {
    SameWord(s[p..p + 4], s[q..q + 4]);
  }

  /** The strings at candidate and at ip agree in n bytes and no more. */
  ghost predicate LongestMatch(input: seq<byte>, candidate: nat, ip: nat, n: nat)
    requires candidate <= ip <= |input|
  {
    && ip + n <= |input|
    && Agree(input, candidate, ip, n)
    && (ip + n == |input| || input[candidate + n] != input[ip + n])
  }

  /** A match in the input is exactly an overlapped copy of the input so far. */
  lemma MatchIsCopy(input: seq<byte>, candidate: nat, ip: nat, len: nat)
    requires candidate < ip && ip + len <= |input|
    requires Agree(input, candidate, ip, len)
    ensures CopyBytes(input[..ip], ip - candidate, len) == input[..ip + len]
  {
    var offset, r := ip - candidate, input[..ip + len];
    assert r[..ip] == input[..ip];
    forall j | ip <= j < |r| ensures r[j] == r[j - offset] {
      AgreeAt(input, candidate, ip, len, j - ip);
    }
    CopyIsUnique(input[..ip], offset, len, r);
  }

  // ---------------------------------------------------------------------------------------------
  // Size budget: w bytes have been written for the first n bytes of a block
  // ---------------------------------------------------------------------------------------------

  /** The most that a block of n bytes can take, surplus stores included. */
  function MaxFragment(n: nat): nat {
    n + n / 65 + 3
  }

  /** Between literals the code exceeds the input by at most one byte in 65. */
  predicate Paid(w: nat, n: nat) {
    65 * w <= 66 * n
  }

  /** Right after a literal its header may still be unpaid for; the copy that follows pays. */
  predicate Owing(w: nat, n: nat) {
    65 * w <= 66 * n + 69
  }

  lemma LiteralHeaderCost(len: nat)
    requires 1 <= len <= BLOCK_SIZE
    ensures |LiteralHeader(len)| == if len <= 60 then 1 else if len <= 256 then 2 else 3
  {
    var n := len - 1;
    if 60 <= n {
      assert |MinimalBytes(n)| == 1 + |MinimalBytes(n / 256)|;
      if n >= 256 {
        assert |MinimalBytes(n / 256)| == 1 + |MinimalBytes(n / 256 / 256)|;
        assert n / 256 / 256 == 0;
      }
    }
  }

  lemma LiteralBudget(w: nat, n: nat, len: nat)
    requires Paid(w, n) && 1 <= len <= BLOCK_SIZE
    ensures Owing(w + |LiteralHeader(len)| + len, n + len)
    ensures w + |LiteralHeader(len)| + len <= MaxFragment(n + len)
  {
    LiteralHeaderCost(len);
    assert w <= n + n / 65;
  }

  lemma CopyBudget(w: nat, n: nat, cost: nat, len: nat)
    requires Owing(w, n) && cost <= len - 1 && len >= 4
    ensures Paid(w + cost, n + len)
  {
  }

  /** The surplus of a fast literal stays within the same bound, because sixteen input bytes follow. */
  lemma FastLiteralBudget(w: nat, n: nat, size: nat)
    requires Paid(w, n) && n + 16 <= size
    ensures w + 17 <= MaxFragment(size)
  {
    assert w <= n + n / 65;
  }

  lemma PaidFits(w: nat, n: nat, size: nat)
    requires Paid(w, n) && n <= size
    ensures w <= MaxFragment(size)
  {
  }

  // ---------------------------------------------------------------------------------------------
  // The hash table
  // ---------------------------------------------------------------------------------------------

  /** A value shifted right by k bits. */
  function ShiftRight(v: nat, k: nat): nat {
    if k == 0 then v else ShiftRight(v / 2, k - 1)
  }

  lemma {:induction false} ShiftRightBound(v: nat, k: nat, bits: nat)
    requires v < BitScan.Pow2(k + bits)
    ensures ShiftRight(v, k) < BitScan.Pow2(bits)
  {
    if k == 0 {
    } else {
      ShiftRightBound(v / 2, k - 1, bits);
    }
  }

  /** HashBytes: a 32-bit product, shifted down. */
  function HashBytes(bytes: nat, shift: nat): nat {
    ShiftRight(bytes * 0x1e35a7bd % 0x1_0000_0000, shift)
  }

  ghost predicate HashesInto(hash: nat -> nat, size: nat) {
    forall w: nat :: hash(w) < size
  }

  /** Hash with the shift that suits a table of 2^power bytes. */
  function HashFor(power: nat): nat -> nat
    requires 9 <= power <= 16
  {
    (w: nat) => HashBytes(w, 33 - power)
  }

  /** A table of 2^power bytes has one 16-bit entry for each hash value. */
  lemma HashFitsTable(power: nat)
    requires 9 <= power <= 16
    ensures HashesInto(HashFor(power), BitScan.Pow2(power - 1))
  {
    BitScan.Pow2Values();
    var shift := 33 - power;
    forall w: nat ensures HashBytes(w, shift) < BitScan.Pow2(power - 1) {
      ShiftRightBound(w * 0x1e35a7bd % 0x1_0000_0000, shift, power - 1);
    }
  }

  lemma {:induction false} ShiftRightIsQuotient(v: nat, k: nat)
    ensures ShiftRight(v, k) == v / BitScan.Pow2(k)
    decreases k
  {
    if k == 0 {
    } else {
      ShiftRightIsQuotient(v / 2, k - 1);
      HalveThenDivide(v, BitScan.Pow2(k - 1));
    }
  }

  lemma HalveThenDivide(v: nat, d: nat)
    requires d > 0
    ensures v / 2 / d == v / (2 * d)
  {
    var q, r := v / 2 / d, v / 2 % d;
    assert v / 2 == q * d + r && v == 2 * (v / 2) + v % 2;
    assert v == q * (2 * d) + (2 * r + v % 2) by {
      assert q * (2 * d) == 2 * (q * d);
    }
    QuotientIs(v, 2 * d, q, 2 * r + v % 2);
  }

  lemma QuotientIs(v: nat, d: nat, q: nat, r: nat)
    requires r < d && v == q * d + r
    ensures v / d == q
  {
    RemainderIs(v, d, q, r);
    assert (v / d) * d == q * d;
    SameFactor(v / d, q, d);
  }

  lemma SameFactor(a: nat, b: nat, d: nat)
    requires d > 0 && a * d == b * d
    ensures a == b
  {
    if a < b {
      assert (b - a) * d >= d;
    } else if b < a {
      assert (a - b) * d >= d;
    }
  }

  /** The hash value is the top of the low 32 bits of a product. */
  lemma HashValue(power: nat, w: nat)
    requires 9 <= power <= 16
    ensures HashFor(power)(w) == w * 506832829 % 4294967296 / BitScan.Pow2(33 - power)
  {
    ShiftRightIsQuotient(w * 506832829 % 4294967296, 33 - power);
  }

  /** The inverse of the multiplier in 32-bit arithmetic. */
  const INVERSE: nat := 0x22b54b95

  lemma MultiplierHasInverse(x: uint32)
    ensures x * INVERSE % 0x1_0000_0000 * 0x1e35a7bd % 0x1_0000_0000 == x
  {
    var m, n := 0x1_0000_0000, x * INVERSE;
    var q, r := n / m, n % m;
    assert INVERSE * 0x1e35a7bd == 68715810 * m + 1;
    assert n == q * m + r;
    assert n * 0x1e35a7bd == x * (INVERSE * 0x1e35a7bd) == x * (68715810 * m + 1);
    assert n * 0x1e35a7bd == (q * 0x1e35a7bd) * m + r * 0x1e35a7bd;
    assert r * 0x1e35a7bd == (68715810 * x - q * 0x1e35a7bd) * m + x;
    RemainderOfMultiple(68715810 * x - q * 0x1e35a7bd, r * 0x1e35a7bd, x);
  }

  lemma RemainderOfMultiple(k: int, a: nat, x: uint32)
    requires a == k * 0x1_0000_0000 + x
    ensures a % 0x1_0000_0000 == x
  {
  }

  /** Every entry of the table is the hash value of some word. */
  lemma EveryEntryIsReached(power: nat, k: nat) returns (w: uint32)
    requires 9 <= power <= 16 && k < BitScan.Pow2(power - 1)
    ensures HashFor(power)(w) == k
  {
    var unit := BitScan.Pow2(33 - power);
    BitScan.Pow2Values();
    BitScan.Pow2Add(power - 1, 33 - power);
    var x := k * unit;
    ProductBelow(k, BitScan.Pow2(power - 1), unit);
    w := x * INVERSE % 0x1_0000_0000;
    MultiplierHasInverse(x);
    HashValue(power, w);
    QuotientIs(x, unit, k, 0);
  }

  lemma ProductBelow(k: nat, n: nat, unit: nat)
    requires k < n && unit > 0
    ensures k * unit < n * unit
  {
  }

  // What the table stands for is the list of the positions that have been filed, the latest one last.

  /** Is there a word at p with this hash value? */
  ghost predicate HashedTo(input: seq<byte>, p: nat, hash: nat -> nat, h: nat) {
    p + 4 <= |input| && hash(Load32(input, p)) == h
  }

  /** The latest position filed under a hash value; the initial zero when there is none. */
  ghost function Latest(filed: seq<nat>, input: seq<byte>, hash: nat -> nat, h: nat): nat
    decreases |filed|
  {
    if filed == [] then 0
    else if HashedTo(input, filed[|filed| - 1], hash, h) then filed[|filed| - 1]
    else Latest(filed[..|filed| - 1], input, hash, h)
  }

  lemma {:induction false} LatestIsLast(filed: seq<nat>, input: seq<byte>, hash: nat -> nat, h: nat)
    ensures || (exists i :: 0 <= i < |filed| && Latest(filed, input, hash, h) == filed[i]
                           && filed[i] + 4 <= |input| && hash(Load32(input, filed[i])) == h
                           && forall j :: i < j < |filed| && filed[j] + 4 <= |input| ==>
                                hash(Load32(input, filed[j])) != h)
            || (&& Latest(filed, input, hash, h) == 0
                && forall j :: 0 <= j < |filed| && filed[j] + 4 <= |input| ==> hash(Load32(input, filed[j])) != h)
    decreases |filed|
  {
    hide Load32;
    if filed == [] {
    } else {
      var n := |filed| - 1;
      if !HashedTo(input, filed[n], hash, h) {
        LatestIsLast(filed[..n], input, hash, h);
      }
    }
  }

  lemma LatestAfter(filed: seq<nat>, p: nat, input: seq<byte>, hash: nat -> nat, h: nat)
    ensures Latest(filed + [p], input, hash, h)
         == if HashedTo(input, p, hash, h) then p else Latest(filed, input, hash, h)
  {
    assert (filed + [p])[..|filed|] == filed;
  }

  /** All filed positions are before ip, with a whole word in the input. */
  ghost predicate FiledBefore(filed: seq<nat>, input: seq<byte>, ip: nat) {
    forall i :: 0 <= i < |filed| ==> filed[i] < ip && filed[i] + 4 <= |input|
  }

  lemma {:induction false} LatestIsBefore(filed: seq<nat>, input: seq<byte>, ip: nat, hash: nat -> nat, h: nat)
    requires FiledBefore(filed, input, ip) && ip >= 1 && |input| >= 4
    ensures Latest(filed, input, hash, h) < ip && Latest(filed, input, hash, h) + 4 <= |input|
    decreases |filed|
  {
    if filed == [] {
    } else {
      LatestIsBefore(filed[..|filed| - 1], input, ip, hash, h);
    }
  }

  /** Each entry in use is the latest position filed under it. */
  ghost predicate TableOk(table: seq<uint16>, size: nat, filed: seq<nat>, input: seq<byte>, ip: nat, hash: nat -> nat)
    requires size <= |table|
  {
    && FiledBefore(filed, input, ip)
    && forall k :: 0 <= k < size ==> table[k] == Latest(filed, input, hash, k)
  }

  lemma TableAge(table: seq<uint16>, size: nat, filed: seq<nat>, input: seq<byte>, ip: nat, later: nat,
                 hash: nat -> nat)
    requires size <= |table| && ip <= later
    requires TableOk(table, size, filed, input, ip, hash)
    ensures TableOk(table, size, filed, input, later, hash)
  {
  }

  lemma EmptyTable(table: seq<uint16>, size: nat, input: seq<byte>, hash: nat -> nat)
    requires size <= |table| && forall k :: 0 <= k < size ==> table[k] == 0
    ensures TableOk(table, size, [], input, 1, hash)
  {
  }

  /** Storing a position under its hash value files it. */
  lemma OneMoreFiled(table: seq<uint16>, after: seq<uint16>, size: nat, filed: seq<nat>, p: uint16, k: nat,
                     input: seq<byte>, ip: nat, hash: nat -> nat)
    requires size <= |table| && k < size && after == table[k := p]
    requires p < ip && p + 4 <= |input| && hash(Load32(input, p)) == k
    requires TableOk(table, size, filed, input, ip, hash)
    ensures TableOk(after, size, filed + [p], input, ip, hash)
  {
    hide Load32, Latest;
    forall j | 0 <= j < size ensures after[j] == Latest(filed + [p], input, hash, j) {
      LatestAfter(filed, p, input, hash, j);
    }
  }

  /** The positions of that many probes of a scan that starts at ip. */
  ghost function Probed(ip: nat, probes: nat): seq<nat> {
    if probes == 0 then [] else Probed(ip, probes - 1) + [ip + ScanDistance(probes - 1)]
  }

  /** Probe k of a scan finds, among the positions filed by then, a candidate with the same word. */
  ghost predicate ProbeHits(filed: seq<nat>, input: seq<byte>, ip: nat, hash: nat -> nat, k: nat) {
    var p := ip + ScanDistance(k);
    && p + 4 <= |input|
    && var c := Latest(filed + Probed(ip, k), input, hash, hash(Load32(input, p)));
       c + 4 <= |input| && Load32(input, p) == Load32(input, c)
  }

  /** Among the positions filed before a scan and those of its probes, the latest is that of the last
      probe with this hash value, and without one it is as before the scan. */
  lemma {:induction false} LatestProbe(filed: seq<nat>, input: seq<byte>, ip: nat, hash: nat -> nat, n: nat, h: nat)
    ensures var c := Latest(filed + Probed(ip, n), input, hash, h);
            || (exists k :: 0 <= k < n && c == ip + ScanDistance(k)
                           && c + 4 <= |input| && hash(Load32(input, c)) == h
                           && forall m :: k < m < n && ip + ScanDistance(m) + 4 <= |input| ==>
                                hash(Load32(input, ip + ScanDistance(m))) != h)
            || (&& c == Latest(filed, input, hash, h)
                && forall m :: 0 <= m < n && ip + ScanDistance(m) + 4 <= |input| ==>
                     hash(Load32(input, ip + ScanDistance(m))) != h)
    decreases n
  {
    hide Load32, Latest, ScanDistance;
    if n == 0 {
      assert filed + [] == filed;
    } else {
      assert filed + Probed(ip, n) == filed + Probed(ip, n - 1) + [ip + ScanDistance(n - 1)];
      LatestAfter(filed + Probed(ip, n - 1), ip + ScanDistance(n - 1), input, hash, h);
      LatestProbe(filed, input, ip, hash, n - 1, h);
    }
  }

  // ---------------------------------------------------------------------------------------------
  // Words at an offset, taken from one eight-byte load
  // ---------------------------------------------------------------------------------------------

  function GetUint32AtOffset(v: nat, offset: nat): nat {
    ShiftBytes(v, offset) % 0x1_0000_0000
  }

  lemma WordAtOffset(s: seq<byte>, p: nat, offset: nat)
    requires p + 8 <= |s| && offset <= 4
    ensures GetUint32AtOffset(Load64(s, p), offset) == Load32(s, p + offset)
  {
    ShiftDropsLowBytes(s[p..p + 8], offset);
    LowBytes(s[p..p + 8][offset..], 4);
    Pow256Values();
    assert s[p..p + 8][offset..][..4] == s[p + offset..p + offset + 4];
  }

  // ---------------------------------------------------------------------------------------------
  // Scan acceleration
  // ---------------------------------------------------------------------------------------------

  /** How far the scan has moved after that many unsuccessful probes: each probe adds one to `skip`,
      which starts at 32 and advances the scan by a thirty-second of itself. */
  function ScanDistance(probes: nat): nat {
    if probes == 0 then 0 else ScanDistance(probes - 1) + (32 + (probes - 1)) / 32
  }

  lemma ScanStart()
    ensures ScanDistance(0) == 0
  {
  }

  lemma ScanStep(probes: nat)
    ensures ScanDistance(probes + 1) == ScanDistance(probes) + (32 + probes) / 32
  {
  }

  lemma {:induction false} ScanDistanceWithin(m: nat, k: nat)
    requires k <= 32
    ensures ScanDistance(32 * m + k) == ScanDistance(32 * m) + k * (m + 1)
  {
    hide ScanDistance;
    if k == 0 {
    } else {
      ScanDistanceWithin(m, k - 1);
      ScanStep(32 * m + (k - 1));
      assert (32 + (32 * m + (k - 1))) / 32 == m + 1;
      OneMore(k, m + 1);
    }
  }

  lemma OneMore(k: nat, x: nat)
    requires k > 0
    ensures k * x == (k - 1) * x + x
  {
  }

  /** After 32 m probes the scan has moved by exactly 16 m (m + 1) bytes. */
  lemma {:induction false} ScanIsQuadratic(m: nat)
    ensures ScanDistance(32 * m) == 16 * m * (m + 1)
  {
    ScanStart();
    hide ScanDistance;
    if m == 0 {
    } else {
      ScanIsQuadratic(m - 1);
      ScanDistanceWithin(m - 1, 32);
      assert 16 * m * (m + 1) == 16 * (m - 1) * m + 32 * m;
    }
  }

  /** So the number of probes in a matchless scan is of the order of the square root of its length. */
  lemma {:induction false} ProbesAreRootOfDistance(probes: nat)
    ensures probes * probes <= 64 * ScanDistance(probes)
  {
    hide ScanDistance;
    var m, k := probes / 32, probes % 32;
    ScanIsQuadratic(m);
    ScanDistanceWithin(m, k);
    SquareOfProbes(m, k);
  }

  lemma SquareOfProbes(m: nat, k: nat)
    requires k < 32
    ensures (32 * m + k) * (32 * m + k) <= 64 * (16 * m * (m + 1) + k * (m + 1))
  {
    assert (32 * m + k) * (32 * m + k) == 1024 * (m * m) + 64 * (m * k) + k * k;
    assert 64 * (16 * m * (m + 1) + k * (m + 1)) == 1024 * (m * m) + 1024 * m + 64 * (m * k) + 64 * k;
    assert k * k <= 64 * k;
  }
}
