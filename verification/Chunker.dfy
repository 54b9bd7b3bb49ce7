/** Content-defined chunking with a gear rolling hash. */
module Chunker {
  import opened Bytes
  import opened Arithmetic
  import Slices

  type U32 = x: int | 0 <= x < 0x1_0000_0000

  datatype ChunkParams = ChunkParams(minSize: U32, avgSize: U32, maxSize: U32)

  const DEFAULT_PARAMS := ChunkParams(256 * 1024, 1024 * 1024, 4096 * 1024)

  datatype Chunk = Chunk(hash: Hash, offset: nat, length: nat, data: seq<Byte>)

  /** Sizes fit in 32 bits, so at most 33 bits of the hash are ever looked at. */
  lemma BitsFit(avg: U32)
    ensures CeilLog2(avg) <= 32
  {
    hide Pow2;
    Pow2Of32();
    if CeilLog2(avg) > 32 {
      Pow2Grows(32, CeilLog2(avg) - 1);
    }
  }

  // ---------------------------------------------------------------- the rolling hash

  /** The gear table: a linear congruential generator with a fixed seed. */
  function GearState(i: nat): (g: nat)
    ensures i > 0 ==> g < MOD64
  {
    if i == 0 then 0x6A09_E667_F3BC_C908
    else (GearState(i - 1) * 6_364_136_223_846_793_005 + 1_442_695_040_888_963_407) % MOD64
  }

  function Gear(b: Byte): nat { GearState(b + 1) }

  /** The first entry, and each of the 255 others from the one before it. */
  lemma GearTable(b: Byte)
    ensures Gear(0) == 0xBB40_6CA6_D8F9_CFB7
    ensures b > 0 ==>
      Gear(b) == (Gear(b - 1) * 6_364_136_223_846_793_005 + 1_442_695_040_888_963_407) % 0x1_0000_0000_0000_0000
  {
    assert GearState(1) == (0x6A09_E667_F3BC_C908 * 6_364_136_223_846_793_005 + 1_442_695_040_888_963_407) % MOD64;
  }

  /** Shift left by one and add, both modulo 2 to the 64. */
  function HashStep(hash: nat, gear: nat): nat {
    (hash * 2 % MOD64 + gear) % MOD64
  }

  /** The hash after scanning data[i..j]. */
  function RollHash(data: seq<Byte>, i: nat, j: nat): nat
    requires i <= j <= |data|
    decreases j
  {
    if i == j then 0 else HashStep(RollHash(data, i, j - 1), Gear(data[j - 1]))
  }

  /** The low bits of a step depend only on one bit fewer of the hash before it. */
  lemma StepLowBits(hash: nat, gear: nat, k: nat)
    requires 0 < k <= 64
    ensures HashStep(hash, gear) % Pow2(k) == (2 * (hash % Pow2(k - 1)) + gear) % Pow2(k)
  {
    Pow2Of64();
    Pow2Adds(k, 64 - k);
    RemainderOfStep(hash, gear, Pow2(k - 1), Pow2(64 - k));
  }

  /** The low `k` bits of the hash are a function of the last `k` bytes scanned. */
  lemma {:induction false} LowBitsOfWindow(d1: seq<Byte>, s1: nat, j1: nat, d2: seq<Byte>, s2: nat, j2: nat, k: nat)
    requires k <= 64 && s1 + k <= j1 <= |d1| && s2 + k <= j2 <= |d2|
    requires d1[j1 - k..j1] == d2[j2 - k..j2]
    ensures RollHash(d1, s1, j1) % Pow2(k) == RollHash(d2, s2, j2) % Pow2(k)
    decreases k
  {
    if k > 0 {
      assert d1[j1 - 1] == d1[j1 - k..j1][k - 1] && d2[j2 - 1] == d2[j2 - k..j2][k - 1];
      assert d1[j1 - k..j1 - 1] == d1[j1 - k..j1][..k - 1] && d2[j2 - k..j2 - 1] == d2[j2 - k..j2][..k - 1];
      LowBitsOfWindow(d1, s1, j1 - 1, d2, s2, j2 - 1, k - 1);
      StepLowBits(RollHash(d1, s1, j1 - 1), Gear(d1[j1 - 1]), k);
      StepLowBits(RollHash(d2, s2, j2 - 1), Gear(d2[j2 - 1]), k);
    }
  }

  /** The sum of Gear(data[j - 1 - k]) * 2^k over the last `n` bytes before `j`. */
  ghost function WindowSum(data: seq<Byte>, j: nat, n: nat): nat
    requires n <= j <= |data|
  {
    if n == 0 then 0 else WindowSum(data, j, n - 1) + Gear(data[j - n]) * Pow2(n - 1)
  }

  /** The same sum from the last byte on. */
  lemma {:induction false} WindowSumSteps(data: seq<Byte>, j: nat, n: nat)
    requires 0 < n <= j <= |data|
    ensures WindowSum(data, j, n) == Gear(data[j - 1]) + 2 * WindowSum(data, j - 1, n - 1)
    decreases n
  {
    hide Gear;
    if n == 1 {
      assert WindowSum(data, j, 0) == 0 && Pow2(0) == 1;
    } else {
      WindowSumSteps(data, j, n - 1);
      assert Pow2(n - 1) == 2 * Pow2(n - 2);
      var g := Gear(data[j - n]);
      assert WindowSum(data, j - 1, n - 1) == WindowSum(data, j - 1, n - 2) + g * Pow2(n - 2);
      assert g * Pow2(n - 1) == 2 * (g * Pow2(n - 2));
    }
  }

  /** The low bits of the hash are those of the sum over as many of the scanned bytes. */
  lemma {:induction false} LowBitsAreWindowSum(data: seq<Byte>, start: nat, j: nat, w: nat)
    requires start <= j <= |data| && w <= 64
    ensures RollHash(data, start, j) % Pow2(w) == WindowSum(data, j, Min(w, j - start)) % Pow2(w)
    decreases w
  {
    hide Gear;
    if w > 0 && j > start {
      hide Pow2;
      LowBitsAreWindowSum(data, start, j - 1, w - 1);
      StepLowBits(RollHash(data, start, j - 1), Gear(data[j - 1]), w);
      WindowSumSteps(data, j, Min(w, j - start));
      DoubledRemainder(WindowSum(data, j - 1, Min(w - 1, j - 1 - start)), Gear(data[j - 1]), Pow2(w - 1));
      DoublePow2(w);
    }
  }

  lemma DoublePow2(w: nat)
    requires w > 0
    ensures Pow2(w) == 2 * Pow2(w - 1)
  {
  }

  // ---------------------------------------------------------------- boundaries

  /** A hard mask below the average size, an easy one above it. */
  function MaskLarge(p: ChunkParams): nat { Pow2(CeilLog2(p.avgSize) + 1) - 1 }

  function MaskSmall(p: ChunkParams): nat
    requires p.avgSize >= 2
  {
    Pow2(CeilLog2(p.avgSize) - 1) - 1
  }

  predicate Usable(p: ChunkParams) { p.avgSize >= 2 && p.maxSize >= 1 }

  /** Where scanning starts and must end. */
  function ScanStart(n: nat, p: ChunkParams): nat { Min(p.minSize, Min(Min(n, p.maxSize), p.avgSize)) }

  function ScanEnd(n: nat, p: ChunkParams): nat { Min(n, p.maxSize) }

  function MaskAt(i: nat, p: ChunkParams): nat
    requires Usable(p)
  {
    if i < p.avgSize then MaskLarge(p) else MaskSmall(p)
  }

  /** Whether the byte at `i` ends a chunk whose scan began at `start`. */
  predicate IsCut(data: seq<Byte>, start: nat, i: nat, p: ChunkParams)
    requires start <= i < |data| && Usable(p)
  {
    BitAnd(RollHash(data, start, i + 1), MaskAt(i, p)) == 0
  }

  function FirstCut(data: seq<Byte>, start: nat, i: nat, end: nat, p: ChunkParams): (c: nat)
    requires start <= i <= end <= |data| && Usable(p)
    ensures i <= c <= end && (i < end ==> i < c)
    decreases end - i
  {
    if i == end then end
    else if IsCut(data, start, i, p) then i + 1
    else FirstCut(data, start, i + 1, end, p)
  }

  /** Length of the first chunk of `data`. */
  function CutLength(data: seq<Byte>, p: ChunkParams): (c: nat)
    requires data != [] && Usable(p)
    ensures 0 < c <= |data| && c <= p.maxSize
  {
    var end := ScanEnd(|data|, p);
    if end <= p.minSize then end else FirstCut(data, ScanStart(|data|, p), ScanStart(|data|, p), end, p)
  }

  /** The cut is the first position the hash accepts, or the end of the scan. */
  lemma {:induction false} FirstCutIsFirst(data: seq<Byte>, start: nat, i: nat, end: nat, p: ChunkParams)
    requires start <= i <= end <= |data| && Usable(p)
    ensures var c := FirstCut(data, start, i, end, p);
      && (forall k :: i <= k < c - 1 ==> !IsCut(data, start, k, p))
      && (c < end ==> IsCut(data, start, c - 1, p))
    decreases end - i
  {
    if i < end && !IsCut(data, start, i, p) {
      FirstCutIsFirst(data, start, i + 1, end, p);
    }
  }

  /** With an average size between 2^(b-1) and 2^b: the byte at `i` may end a chunk if and only if
      the weighted sum over the last bytes scanned is divisible by 2^w, where `w` is b + 1 below
      the average size and b - 1 from there on. */
  ghost predicate EndsChunk(data: seq<Byte>, start: nat, i: nat, avg: nat, b: nat)
    requires start <= i < |data| && b > 0
  {
    var w := if i < avg then b + 1 else b - 1;
    WindowSum(data, i + 1, Min(w, i + 1 - start)) % Pow2(w) == 0
  }

  /** A chunk ends after the first such byte from the minimum size on, or at the end of the data,
      or at the maximum size. */
  ghost predicate IsBoundary(data: seq<Byte>, p: ChunkParams, b: nat, cut: nat)
    requires b > 0
  {
    var end := if |data| <= p.maxSize then |data| else p.maxSize;
    if end <= p.minSize then cut == end
    else
      var from := Min(p.minSize, p.avgSize);
      && from < cut <= end
      && (forall i :: from <= i < cut - 1 ==> !EndsChunk(data, from, i, p.avgSize, b))
      && (cut < end ==> EndsChunk(data, from, cut - 1, p.avgSize, b))
  }

  /** The same for the one exponent that fits the average size. */
  ghost predicate IsBoundaryFor(data: seq<Byte>, p: ChunkParams, cut: nat) {
    forall b: nat :: b > 0 && Pow2(b - 1) < p.avgSize <= Pow2(b) ==> IsBoundary(data, p, b, cut)
  }

  lemma IsCutMeans(data: seq<Byte>, start: nat, i: nat, p: ChunkParams, b: nat)
    requires start <= i < |data| && Usable(p) && b > 0 && Pow2(b - 1) < p.avgSize <= Pow2(b)
    ensures IsCut(data, start, i, p) <==> EndsChunk(data, start, i, p.avgSize, b)
  {
    CeilLog2IsOnly(p.avgSize, b);
    BitsFit(p.avgSize);
    CutIsRemainder(data, start, i, p);
    hide Pow2, RollHash, WindowSum, IsCut;
    LowBitsAreWindowSum(data, start, i + 1, if i < p.avgSize then b + 1 else b - 1);
  }

  lemma CutIsBoundary(data: seq<Byte>, p: ChunkParams, b: nat)
    requires data != [] && Usable(p) && b > 0 && Pow2(b - 1) < p.avgSize <= Pow2(b)
    ensures IsBoundary(data, p, b, CutLength(data, p))
  {
    var end := ScanEnd(|data|, p);
    if end > p.minSize {
      var from := ScanStart(|data|, p);
      FirstCutIsFirst(data, from, from, end, p);
      hide IsCut, EndsChunk, Pow2, FirstCut;
      forall i | from <= i < end
        ensures IsCut(data, from, i, p) <==> EndsChunk(data, from, i, p.avgSize, b)
      {
        IsCutMeans(data, from, i, p, b);
      }
    }
  }

  lemma BoundaryForAll(data: seq<Byte>, p: ChunkParams)
    requires data != [] && Usable(p)
    ensures IsBoundaryFor(data, p, CutLength(data, p))
  {
    forall b: nat | b > 0 && Pow2(b - 1) < p.avgSize <= Pow2(b)
      ensures IsBoundary(data, p, b, CutLength(data, p))
    {
      CutIsBoundary(data, p, b);
    }
  }

  /** With the default parameters: 21 bits below one mebibyte, 19 from there on. */
  lemma DefaultBits()
    ensures DEFAULT_PARAMS.avgSize == 0x10_0000 && Pow2(19) < 0x10_0000 <= Pow2(20)
  {
    assert Pow2(4) == 16;
    Pow2Adds(4, 4);
    Pow2Adds(8, 8);
    Pow2Adds(16, 4);
    assert Pow2(20) == 2 * Pow2(19);
  }

  lemma DefaultBoundary(data: seq<Byte>)
    requires data != []
    ensures IsBoundary(data, DEFAULT_PARAMS, 20, CutLength(data, DEFAULT_PARAMS))
  {
    DefaultBits();
    CutIsBoundary(data, DEFAULT_PARAMS, 20);
  }

  /** Either loop at `i`: nothing before it was a cut, and `hash` has taken in what was scanned. */
  ghost predicate ScannedTo(data: seq<Byte>, p: ChunkParams, i: nat, hash: nat)
    requires data != [] && Usable(p)
  {
    var start, end := ScanStart(|data|, p), ScanEnd(|data|, p);
    && start <= i <= end && hash == RollHash(data, start, i)
    && CutLength(data, p) == FirstCut(data, start, i, end, p)
  }

  lemma ScanBegins(data: seq<Byte>, p: ChunkParams)
    requires data != [] && Usable(p) && ScanEnd(|data|, p) > p.minSize
    ensures ScannedTo(data, p, ScanStart(|data|, p), 0)
  {
    hide IsCut;
  }

  /** One step: the hash takes in a byte, and the mask decides. */
  lemma ScanStep(data: seq<Byte>, p: ChunkParams, i: nat, hash: nat)
    requires data != [] && Usable(p) && ScannedTo(data, p, i, hash) && i < ScanEnd(|data|, p)
    ensures var next := HashStep(hash, Gear(data[i]));
      if BitAnd(next, if i < p.avgSize then MaskLarge(p) else MaskSmall(p)) == 0 then CutLength(data, p) == i + 1
      else ScannedTo(data, p, i + 1, next)
  {
    hide BitAnd, MaskLarge, MaskSmall, HashStep, Gear, CutLength;
  }

  lemma ScanFinishes(data: seq<Byte>, p: ChunkParams, hash: nat)
    requires data != [] && Usable(p) && ScannedTo(data, p, ScanEnd(|data|, p), hash)
    ensures CutLength(data, p) == ScanEnd(|data|, p)
  {
    hide IsCut, CutLength;
  }

  /** `find_boundary`: both scanning loops, carrying the hash along. */
  method FindBoundary(data: seq<Byte>, p: ChunkParams) returns (cut: nat)
    requires data != [] && Usable(p)
    ensures cut == CutLength(data, p)
    ensures IsBoundaryFor(data, p, cut)
  {
    BoundaryForAll(data, p);
    var end := Min(|data|, p.maxSize);
    if end <= p.minSize { return end; }
    ScanBegins(data, p);
    hide HashStep, Gear, BitAnd, MaskLarge, MaskSmall, IsBoundaryFor, Pow2, ScannedTo, CutLength;
    var hash := 0;
    var mid := Min(end, p.avgSize);
    var i := p.minSize;
    while i < mid
      invariant if i <= mid then ScannedTo(data, p, i, hash) else i == p.minSize && hash == 0
    {
      ScanStep(data, p, i, hash);
      hash := HashStep(hash, Gear(data[i]));
      if BitAnd(hash, MaskLarge(p)) == 0 { return i + 1; }
      i := i + 1;
    }
    i := mid;
    while i < end
      invariant mid <= i <= end && ScannedTo(data, p, i, hash)
    {
      ScanStep(data, p, i, hash);
      hash := HashStep(hash, Gear(data[i]));
      if BitAnd(hash, MaskSmall(p)) == 0 { return i + 1; }
      i := i + 1;
    }
    ScanFinishes(data, p, hash);
    cut := end;
  }

  /** A mask never needs more than 33 bits. */
  function BitsAt(i: nat, p: ChunkParams): nat
    requires Usable(p)
  {
    if i < p.avgSize then CeilLog2(p.avgSize) + 1 else CeilLog2(p.avgSize) - 1
  }

  /** Once as many bytes have been scanned as the mask has bits, nothing older matters: two
      chunks, of different texts and scanned from different places, agree on a cut as soon as
      the last bytes agree. */
  lemma CutDependsOnWindow(d1: seq<Byte>, s1: nat, i1: nat, d2: seq<Byte>, s2: nat, i2: nat, p: ChunkParams)
    requires Usable(p) && s1 <= i1 < |d1| && s2 <= i2 < |d2|
    requires i1 < p.avgSize <==> i2 < p.avgSize
    requires var w := BitsAt(i1, p);
      w <= i1 + 1 - s1 && w <= i2 + 1 - s2 && d1[i1 + 1 - w..i1 + 1] == d2[i2 + 1 - w..i2 + 1]
    ensures IsCut(d1, s1, i1, p) <==> IsCut(d2, s2, i2, p)
  {
    var w := BitsAt(i1, p);
    CutIsRemainder(d1, s1, i1, p);
    CutIsRemainder(d2, s2, i2, p);
    BitsFit(p.avgSize);
    hide *;
    LowBitsOfWindow(d1, s1, i1 + 1, d2, s2, i2 + 1, w);
  }

  lemma CutIsRemainder(data: seq<Byte>, start: nat, i: nat, p: ChunkParams)
    requires Usable(p) && start <= i < |data|
    ensures BitsAt(i, p) == if i < p.avgSize then CeilLog2(p.avgSize) + 1 else CeilLog2(p.avgSize) - 1
    ensures IsCut(data, start, i, p) <==> RollHash(data, start, i + 1) % Pow2(BitsAt(i, p)) == 0
  {
    hide BitAnd, RollHash, CeilLog2, Pow2;
    BitsFit(p.avgSize);
    MaskIsRemainder(RollHash(data, start, i + 1), BitsAt(i, p));
  }

  // ---------------------------------------------------------------- chunks

  function Pieces(data: seq<Byte>, p: ChunkParams): seq<seq<Byte>>
    requires Usable(p)
  {
    if data == [] then []
    else if |data| <= p.minSize then [data]
    else
      var c := CutLength(data, p);
      [data[..c]] + Pieces(data[c..], p)
  }

  function Concat(pieces: seq<seq<Byte>>): seq<Byte> {
    if pieces == [] then [] else pieces[0] + Concat(pieces[1..])
  }

  function ChunksFrom(pieces: seq<seq<Byte>>, offset: nat): seq<Chunk> {
    if pieces == [] then []
    else [Chunk(Sha256(pieces[0]), offset, |pieces[0]|, pieces[0])] + ChunksFrom(pieces[1..], offset + |pieces[0]|)
  }

  /** `chunk_data`: the pieces in order, each with its digest, offset and length. */
  method ChunkData(data: seq<Byte>, p: ChunkParams) returns (chunks: seq<Chunk>)
    requires Usable(p)
    ensures chunks == ChunksFrom(Pieces(data, p), 0)
  {
    hide CutLength;
    if data == [] { return []; }
    chunks := [];
    var offset := 0;
    while offset < |data|
      invariant offset <= |data|
      invariant chunks + ChunksFrom(Pieces(data[offset..], p), offset) == ChunksFrom(Pieces(data, p), 0)
    {
      var rest := data[offset..];
      if |rest| <= p.minSize {
        OnePiece(rest, offset);
        chunks := chunks + [Chunk(Sha256(rest), offset, |rest|, rest)];
        return;
      }
      var c := FindBoundary(rest, p);
      var piece := data[offset..offset + c];
      NextPiece(data, offset, c, p);
      Slices.Assoc(chunks, [Chunk(Sha256(piece), offset, |piece|, piece)],
                   ChunksFrom(Pieces(data[offset + c..], p), offset + c));
      chunks := chunks + [Chunk(Sha256(piece), offset, |piece|, piece)];
      offset := offset + c;
    }
    assert data[|data|..] == [];
    assert chunks + [] == chunks;
  }

  lemma OnePiece(data: seq<Byte>, offset: nat)
    ensures ChunksFrom([data], offset) == [Chunk(Sha256(data), offset, |data|, data)]
  {
  }

  lemma NextPiece(data: seq<Byte>, offset: nat, c: nat, p: ChunkParams)
    requires Usable(p) && offset < |data| && |data| - offset > p.minSize && c == CutLength(data[offset..], p)
    ensures c > 0 && offset + c <= |data|
    ensures var piece := data[offset..offset + c];
      ChunksFrom(Pieces(data[offset..], p), offset)
        == [Chunk(Sha256(piece), offset, |piece|, piece)] + ChunksFrom(Pieces(data[offset + c..], p), offset + c)
  {
    var rest := data[offset..];
    assert rest[..c] == data[offset..offset + c] && rest[c..] == data[offset + c..];
    Slices.Tail([rest[..c]], Pieces(rest[c..], p));
  }

  /** `reassemble_chunks`. */
  method ReassembleChunks(payloads: seq<seq<Byte>>) returns (out: seq<Byte>)
    ensures out == Concat(payloads)
  {
    out := [];
    for i := 0 to |payloads|
      invariant out + Concat(payloads[i..]) == Concat(payloads)
    {
      assert payloads[i..][1..] == payloads[i + 1..];
      Slices.Assoc(out, payloads[i], Concat(payloads[i + 1..]));
      out := out + payloads[i];
    }
    assert payloads[|payloads|..] == [];
  }

  // ---------------------------------------------------------------- what chunking guarantees

  /** Nothing is lost: the pieces are non-empty and concatenate to the input. */
  lemma {:induction false} PiecesCover(data: seq<Byte>, p: ChunkParams)
    requires Usable(p)
    ensures Concat(Pieces(data, p)) == data
    ensures forall piece <- Pieces(data, p) :: piece != []
    decreases |data|
  {
    hide CutLength;
    if data != [] && |data| > p.minSize {
      var c := CutLength(data, p);
      PiecesCover(data[c..], p);
      Slices.Tail([data[..c]], Pieces(data[c..], p));
      assert data[..c] + data[c..] == data;
    }
  }

  lemma CutSizes(data: seq<Byte>, p: ChunkParams)
    requires Usable(p) && p.minSize <= p.avgSize && p.minSize < p.maxSize && |data| > p.minSize
    ensures p.minSize < CutLength(data, p) <= p.maxSize
  {
  }

  ghost predicate SizesOk(pieces: seq<seq<Byte>>, p: ChunkParams) {
    forall k :: 0 <= k < |pieces| ==> |pieces[k]| <= p.maxSize && (k < |pieces| - 1 ==> p.minSize < |pieces[k]|)
  }

  lemma SizesCons(piece: seq<Byte>, rest: seq<seq<Byte>>, p: ChunkParams)
    requires |piece| <= p.maxSize && (rest != [] ==> p.minSize < |piece|) && SizesOk(rest, p)
    ensures SizesOk([piece] + rest, p)
  {
    var all := [piece] + rest;
    assert forall k :: 0 < k < |all| ==> all[k] == rest[k - 1];
  }

  /** Sizes: every piece but the last is longer than the minimum, none exceeds the maximum. */
  lemma {:induction false} PieceSizes(data: seq<Byte>, p: ChunkParams)
    requires Usable(p) && p.minSize <= p.avgSize && p.minSize < p.maxSize
    ensures SizesOk(Pieces(data, p), p)
    decreases |data|
  {
    hide CutLength, SizesOk;
    NoSizes(p);
    if data != [] {
      if |data| > p.minSize {
        var c := CutLength(data, p);
        CutSizes(data, p);
        PieceSizes(data[c..], p);
        SizesCons(data[..c], Pieces(data[c..], p), p);
      } else {
        SizesCons(data, [], p);
        assert [data] + [] == [data];
      }
    }
  }

  lemma NoSizes(p: ChunkParams)
    ensures SizesOk([], p)
  {
  }

  /** So there are few of them. */
  lemma {:induction false} PieceCount(data: seq<Byte>, p: ChunkParams)
    requires Usable(p) && p.minSize <= p.avgSize && p.minSize < p.maxSize
    ensures data != [] ==> (|Pieces(data, p)| - 1) * (p.minSize + 1) < |data|
    decreases |data|
  {
    hide CutLength;
    if data != [] && |data| > p.minSize {
      var c := CutLength(data, p);
      CutSizes(data, p);
      PieceCount(data[c..], p);
      if data[c..] != [] {
        var n := |Pieces(data[c..], p)|;
        assert |Pieces(data, p)| == n + 1;
        assert n * (p.minSize + 1) == (n - 1) * (p.minSize + 1) + (p.minSize + 1);
      }
    }
  }

  const MAX_MANIFEST_CHUNKS := 100_000
  const MAX_MANIFEST_TOTAL_SIZE := 10_737_418_240

  /** Any file a pull accepts by size, it also accepts by number of chunks. */
  lemma SizeLimitImpliesChunkLimit(data: seq<Byte>)
    requires |data| <= 10_737_418_240
    ensures |Pieces(data, DEFAULT_PARAMS)| < 100_000
  {
    hide Pieces;
    PieceCount(data, DEFAULT_PARAMS);
    if data == [] {
      NoPieces(DEFAULT_PARAMS);
    }
  }

  lemma NoPieces(p: ChunkParams)
    requires Usable(p)
    ensures Pieces([], p) == []
  {
  }

  // ---------------------------------------------------------------- locality

  /** Bytes appended behind the scanned part do not move a cut. */
  lemma {:induction false} FirstCutIgnoresRest(a: seq<Byte>, b: seq<Byte>, start: nat, i: nat, e1: nat, e2: nat,
                                               p: ChunkParams)
    requires start <= i <= e1 <= |a| && e1 <= e2 <= |a + b| && Usable(p)
    ensures FirstCut(a, start, i, e1, p) < e1 || e1 == e2 ==>
      FirstCut(a + b, start, i, e2, p) == FirstCut(a, start, i, e1, p)
    decreases e1 - i
  {
    if i < e1 {
      HashIgnoresRest(a, b, start, i + 1);
      hide BitAnd;
      if !IsCut(a, start, i, p) {
        FirstCutIgnoresRest(a, b, start, i + 1, e1, e2, p);
      }
    }
  }

  lemma {:induction false} HashIgnoresRest(a: seq<Byte>, b: seq<Byte>, i: nat, j: nat)
    requires i <= j <= |a|
    ensures RollHash(a + b, i, j) == RollHash(a, i, j)
    decreases j
  {
    if i < j {
      HashIgnoresRest(a, b, i, j - 1);
    }
  }

  /** A cut before the end of the text stays where it is when more is appended. */
  lemma CutIgnoresRest(a: seq<Byte>, b: seq<Byte>, p: ChunkParams)
    requires a != [] && Usable(p) && |a| > p.minSize && CutLength(a, p) < |a|
    ensures CutLength(a + b, p) == CutLength(a, p)
  {
    var e1, e2 := ScanEnd(|a|, p), ScanEnd(|a + b|, p);
    if e1 > p.minSize {
      assert ScanStart(|a|, p) == ScanStart(|a + b|, p);
      FirstCutIgnoresRest(a, b, ScanStart(|a|, p), ScanStart(|a|, p), e1, e2, p);
    }
  }

  /** All pieces of a text except possibly its last are also the first pieces of any longer text. */
  lemma {:induction false} AppendingKeepsPieces(a: seq<Byte>, b: seq<Byte>, p: ChunkParams)
    requires a != [] && Usable(p)
    ensures Pieces(a, p) != []
    ensures Pieces(a, p)[..|Pieces(a, p)| - 1] <= Pieces(a + b, p)
    decreases |a|
  {
    hide CutLength;
    if |a| > p.minSize {
      var c := CutLength(a, p);
      if c < |a| {
        CutIgnoresRest(a, b, p);
        assert (a + b)[..c] == a[..c] && (a + b)[c..] == a[c..] + b;
        AppendingKeepsPieces(a[c..], b, p);
        var n, rest := |Pieces(a[c..], p)|, Pieces(a[c..], p);
        assert ([a[..c]] + rest)[..n] == [a[..c]] + rest[..n - 1];
      } else {
        assert a[c..] == [];
      }
    }
  }

  /** If the first `k` pieces of front + back are exactly the front, the others are the pieces of
      the back: nothing of the front is remembered across a boundary. */
  lemma {:induction false} BoundaryResets(front: seq<Byte>, back: seq<Byte>, k: nat, p: ChunkParams)
    requires Usable(p) && k <= |Pieces(front + back, p)|
    requires Concat(Pieces(front + back, p)[..k]) == front
    ensures Pieces(front + back, p)[k..] == Pieces(back, p)
    decreases k
  {
    hide CutLength;
    var data := front + back;
    if k == 0 {
      assert data == back;
    } else if |data| <= p.minSize {
      assert Pieces(data, p)[..1] == [data] && Concat([data]) == data;
      assert back == [];
    } else {
      var c := CutLength(data, p);
      var rest := Pieces(data[c..], p);
      assert Pieces(data, p)[..k] == [data[..c]] + rest[..k - 1];
      ConcatCons(data[..c], rest[..k - 1]);
      assert front[..c] == data[..c] && front[c..] == Concat(rest[..k - 1]);
      assert data[c..] == front[c..] + back;
      BoundaryResets(front[c..], back, k - 1, p);
    }
  }

  lemma ConcatCons(piece: seq<Byte>, rest: seq<seq<Byte>>)
    ensures Concat([piece] + rest) == piece + Concat(rest)
  {
    Slices.Tail([piece], rest);
  }

  function AllButLast(pieces: seq<seq<Byte>>): seq<seq<Byte>> {
    if pieces == [] then [] else pieces[..|pieces| - 1]
  }

  /** Every piece ends where the boundary rule says for what is left of the data there, unless that
      is no more than the minimum and makes up the last piece. */
  lemma {:induction false} PiecesEndAtBoundaries(data: seq<Byte>, k: nat, p: ChunkParams)
    requires Usable(p) && k < |Pieces(data, p)|
    ensures |Concat(Pieces(data, p)[..k])| <= |data|
    ensures var rest := data[|Concat(Pieces(data, p)[..k])|..];
      var n := |Pieces(data, p)[k]|;
      && n <= |rest| && Pieces(data, p)[k] == rest[..n]
      && if |rest| <= p.minSize then n == |rest| else IsBoundaryFor(rest, p, n)
    decreases k
  {
    hide IsBoundaryFor, CutLength;
    var c := CutLength(data, p);
    var pieces := Pieces(data, p);
    BoundaryForAll(data, p);
    if k == 0 {
      assert pieces[..0] == [] && data[0..] == data;
    } else {
      var back := data[c..];
      PiecesEndAtBoundaries(back, k - 1, p);
      assert pieces[..k] == [pieces[0]] + Pieces(back, p)[..k - 1];
      ConcatCons(pieces[0], Pieces(back, p)[..k - 1]);
      var n := |Concat(Pieces(back, p)[..k - 1])|;
      assert data[c..][n..] == data[c + n..];
    }
  }

  /** An edit is local. Two versions share `pre` and `post` and differ between them: all pieces of
      `pre` but its last begin both, and from any boundary that both versions have at the start
      of `post` on, their pieces are the same. */
  lemma EditIsLocal(pre: seq<Byte>, x: seq<Byte>, y: seq<Byte>, post: seq<Byte>, k: nat, l: nat, p: ChunkParams)
    requires Usable(p)
    requires k <= |Pieces(pre + x + post, p)| && Concat(Pieces(pre + x + post, p)[..k]) == pre + x
    requires l <= |Pieces(pre + y + post, p)| && Concat(Pieces(pre + y + post, p)[..l]) == pre + y
    ensures pre != [] ==>
      var kept := AllButLast(Pieces(pre, p));
      kept <= Pieces(pre + x + post, p) && kept <= Pieces(pre + y + post, p)
    ensures Pieces(pre + x + post, p)[k..] == Pieces(pre + y + post, p)[l..]
  {
    Slices.Assoc(pre, x, post);
    Slices.Assoc(pre, y, post);
    if pre != [] {
      AppendingKeepsPieces(pre, x + post, p);
      AppendingKeepsPieces(pre, y + post, p);
    }
    BoundaryResets(pre + x, post, k, p);
    BoundaryResets(pre + y, post, l, p);
  }

  /** Chunking and reassembling gives the data back. */
  lemma {:induction false} ChunksCarryPieces(pieces: seq<seq<Byte>>, offset: nat)
    ensures |ChunksFrom(pieces, offset)| == |pieces|
    ensures forall k :: 0 <= k < |pieces| ==>
      var chunk := ChunksFrom(pieces, offset)[k];
      && chunk.data == pieces[k] && chunk.hash == Sha256(pieces[k]) && chunk.length == |pieces[k]|
      && chunk.offset == offset + |Concat(pieces[..k])|
    decreases |pieces|
  {
    if pieces != [] {
      var rest := pieces[1..];
      ChunksCarryPieces(rest, offset + |pieces[0]|);
      forall k | 0 < k < |pieces|
        ensures |Concat(pieces[..k])| == |pieces[0]| + |Concat(rest[..k - 1])|
      {
        PrefixLength(pieces, k);
      }
      assert pieces[..0] == [];
    }
  }

  lemma PrefixLength(pieces: seq<seq<Byte>>, k: nat)
    requires 0 < k <= |pieces|
    ensures |Concat(pieces[..k])| == |pieces[0]| + |Concat(pieces[1..][..k - 1])|
  {
    assert pieces[..k] == [pieces[0]] + pieces[1..][..k - 1];
    ConcatCons(pieces[0], pieces[1..][..k - 1]);
  }
}
