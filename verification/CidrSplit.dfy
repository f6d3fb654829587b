/** `range_to_cidrs` (src/geo/lookup.rs): exact cover, the 62-block bound and minimality. */
module CidrSplit {
  import opened Bits
  import opened Cidr
  import Pigeonhole

  // ----- the specification: repeatedly cut off the largest aligned block that fits

  ghost predicate Fits(cur: nat, end: nat, k: nat) {
    k <= 32 && Aligned(cur, k) && cur + Pow2(k) <= end + 1
  }

  /** The exponent of the largest aligned block that starts at `cur` and ends by `end`. */
  ghost function BestFit(cur: nat, end: nat): (k: nat)
    requires cur <= end
    ensures Fits(cur, end, k)
    ensures forall j :: k < j <= 32 ==> !Fits(cur, end, j)
  {
    BestFitExists(cur, end, 32);
    var k: nat :| Fits(cur, end, k) && forall j :: k < j <= 32 ==> !Fits(cur, end, j);
    k
  }

  lemma {:induction false} BestFitExists(cur: nat, end: nat, hi: nat)
    requires cur <= end && hi <= 32
    requires forall j :: hi < j <= 32 ==> !Fits(cur, end, j)
    ensures exists k: nat :: Fits(cur, end, k) && forall j :: k < j <= 32 ==> !Fits(cur, end, j)
  {
    if hi == 0 || Fits(cur, end, hi) {
      assert Fits(cur, end, hi);
    } else {
      BestFitExists(cur, end, hi - 1);
    }
  }

  ghost function FirstBlock(cur: nat, end: nat): (b: Block)
    requires cur <= end < 0x1_0000_0000
    ensures b.Valid() && b.base as nat == cur && b.End() <= end + 1
  {
    Pow2Values();
    Block(cur as u32, 32 - BestFit(cur, end))
  }

  ghost function Split(cur: nat, end: nat): seq<Block>
    requires end < 0x1_0000_0000
    decreases end + 1 - cur
  {
    if cur > end then [] else [FirstBlock(cur, end)] + Split(FirstBlock(cur, end).End(), end)
  }

  // ----- the code

  function LeadingZeros64(n: u64): nat {
    if BitLength(n as nat) <= 64 then 64 - BitLength(n as nat) else 0
  }

  lemma RoomIff(count: nat, k: nat)
    requires count > 0
    ensures BitLength(count) > 0
    ensures Pow2(k) <= count <==> k <= BitLength(count) - 1
  {
    BitLengthBounds(count);
    var room := BitLength(count) - 1;
    if k < room { Pow2Monotone(k, room); }
    if room + 1 < k { Pow2Monotone(room + 1, k); }
  }

  lemma FitsIff(cur: nat, end: nat, k: nat)
    requires cur <= end && k <= 32
    ensures BitLength(end - cur + 1) > 0
    ensures Fits(cur, end, k) <==> (cur == 0 || k <= TrailingZeros(cur)) && k <= BitLength(end - cur + 1) - 1
  {
    RoomIff(end - cur + 1, k);
    if cur > 0 { TrailingZerosAlign(cur, k); }
  }

  lemma RoomBound(count: nat)
    requires 0 < count <= 0x1_0000_0000
    ensures 0 < BitLength(count) <= 33
  {
    BitLengthBounds(count);
    Pow2Values();
    if BitLength(count) > 33 { Pow2Monotone(32, BitLength(count) - 1); }
  }

  lemma GreedyExponent(cur: nat, end: nat)
    requires cur <= end < 0x1_0000_0000
    ensures var align := if cur == 0 || TrailingZeros(cur) > 32 then 32 else TrailingZeros(cur);
            var room := BitLength(end - cur + 1) - 1;
            0 <= room <= 32 && BestFit(cur, end) == if align <= room then align else room
  {
    RoomBound(end - cur + 1);
    var align := if cur == 0 || TrailingZeros(cur) > 32 then 32 else TrailingZeros(cur);
    var room := BitLength(end - cur + 1) - 1;
    var best := if align <= room then align else room;
    FitsIff(cur, end, best);
    FitsIff(cur, end, BestFit(cur, end));
  }

  /** The smaller of two powers of two is the power of the smaller exponent; both fit a 64-bit word. */
  lemma MinPow2(a: nat, b: nat)
    requires a <= 32 && b <= 32
    ensures Pow2(a) <= 0x1_0000_0000 && Pow2(b) <= 0x1_0000_0000
    ensures (if Pow2(a) <= Pow2(b) then Pow2(a) else Pow2(b)) == Pow2(if a <= b then a else b)
  {
    Pow2Values();
    if a < 32 { Pow2Monotone(a, 32); }
    if b < 32 { Pow2Monotone(b, 32); }
    if a < b { Pow2Monotone(a, b); }
    if b < a { Pow2Monotone(b, a); }
  }

  lemma BlockOfSize(cur: nat, end: nat, size: nat)
    requires cur <= end < 0x1_0000_0000 && size == Pow2(BestFit(cur, end))
    ensures TrailingZeros(size) <= 32
    ensures FirstBlock(cur, end) == Block(cur as u32, 32 - TrailingZeros(size))
    ensures FirstBlock(cur, end).End() == cur + size
  {
    TrailingZerosPow2(BestFit(cur, end));
  }

  /** The size the source computes at `cur`, on 64-bit words: the smaller of the alignment of `cur`
      and the largest power of two not above the remaining count. */
  method NextBlockSize(cur: u64, end: u64) returns (size: u64)
    requires cur <= end < 0x1_0000_0000
    ensures size as nat == Pow2(BestFit(cur as nat, end as nat))
  {
    var alignBits: nat := if cur == 0 || TrailingZeros(cur as nat) > 32 then 32 else TrailingZeros(cur as nat);
    var count := end - cur + 1;
    RoomBound(count as nat);
    var countBits: nat := 63 - LeadingZeros64(count);
    GreedyExponent(cur as nat, end as nat);
    MinPow2(alignBits, countBits);
    var maxSizeFromAlign := Pow2(alignBits) as u64;
    var maxSizeFromCount := Pow2(countBits) as u64;
    size := if maxSizeFromAlign <= maxSizeFromCount then maxSizeFromAlign else maxSizeFromCount;
  }

  /** Pushing the block of the computed size and advancing past it. */
  lemma PushStep(done: seq<Block>, cur: nat, end: nat, size: nat)
    requires cur <= end < 0x1_0000_0000 && size == Pow2(BestFit(cur, end))
    ensures TrailingZeros(size) <= 32 && cur < cur + size <= end + 1
    ensures (done + [Block(cur as u32, 32 - TrailingZeros(size))]) + Split(cur + size, end) == done + Split(cur, end)
  {
    BlockOfSize(cur, end, size);
  }

  /** The loop of the source: no step leaves its machine word, the loop ends, and the blocks pushed are
      exactly the specified ones. */
  method RangeToCidrs(start: u32, end: u32) returns (cidrs: seq<Block>)
    ensures cidrs == Split(start as nat, end as nat)
  {
    if start > end {
      return [];
    }
    cidrs := [];
    var cur := start as u64;
    var endU64 := end as u64;
    while cur <= endU64
      invariant cur as nat <= end as nat + 1
      invariant cidrs + Split(cur as nat, end as nat) == Split(start as nat, end as nat)
      decreases end as nat + 1 - cur as nat
    {
      var blockSize := NextBlockSize(cur, endU64);
      PushStep(cidrs, cur as nat, end as nat, blockSize as nat);
      var prefix: nat := 32 - TrailingZeros(blockSize as nat);
      cidrs := cidrs + [Block(cur as u32, prefix)];
      cur := cur + blockSize;
    }
  }

  // ----- what the specification means

  ghost predicate Covered(blocks: seq<Block>, x: nat) {
    exists b :: b in blocks && b.Has(x)
  }

  /** Valid blocks inside [start, end], in ascending order and pairwise disjoint. */
  ghost predicate Ascending(blocks: seq<Block>, start: nat, end: nat) {
    && (forall i :: 0 <= i < |blocks| ==> blocks[i].Valid() && blocks[i].Inside(start, end + 1))
    && (forall i, j :: 0 <= i < j < |blocks| ==> blocks[i].End() <= blocks[j].base as nat)
  }

  lemma {:induction false} SplitAscending(start: nat, end: nat)
    requires end < 0x1_0000_0000
    ensures Ascending(Split(start, end), start, end)
    decreases end + 1 - start
  {
    if start <= end {
      SplitAscending(FirstBlock(start, end).End(), end);
    }
  }

  lemma {:induction false} SplitReaches(start: nat, end: nat, x: nat) returns (i: nat)
    requires start <= x <= end < 0x1_0000_0000
    ensures i < |Split(start, end)| && Split(start, end)[i].Has(x)
    decreases end + 1 - start
  {
    var b := FirstBlock(start, end);
    if x < b.End() {
      i := 0;
    } else {
      var j := SplitReaches(b.End(), end, x);
      i := j + 1;
    }
  }

  /** Exact cover: an address lies in some emitted block exactly when it lies in the range. */
  lemma SplitCoversExactly(start: nat, end: nat, x: nat)
    requires end < 0x1_0000_0000
    ensures start <= x <= end <==> Covered(Split(start, end), x)
  {
    SplitAscending(start, end);
    if start <= x <= end {
      var i := SplitReaches(start, end, x);
      assert Split(start, end)[i] in Split(start, end);
    }
  }

  /** Every aligned block inside the range lies within one emitted block,
      so the emitted blocks are the maximal aligned blocks of the range. */
  lemma {:induction false} SplitAbsorbs(start: nat, end: nat, c: Block) returns (i: nat)
    requires end < 0x1_0000_0000 && c.Valid() && c.Inside(start, end + 1)
    ensures i < |Split(start, end)| && c.Inside(Split(start, end)[i].base as nat, Split(start, end)[i].End())
    decreases end + 1 - start
  {
    var b := FirstBlock(start, end);
    if c.base as nat >= b.End() {
      var j := SplitAbsorbs(b.End(), end, c);
      i := j + 1;
    } else {
      i := 0;
      if c.Bits() <= b.Bits() {
        Laminar(c.base as nat, c.Bits(), b.base as nat, b.Bits());
      } else {
        Laminar(b.base as nat, b.Bits(), c.base as nat, c.Bits());
        assert Fits(start, end, c.Bits());
      }
    }
  }

  /** The aligned block of twice the size around an emitted block sticks out of the range. */
  lemma ParentSticksOut(start: nat, end: nat, i: nat, parent: nat)
    requires end < 0x1_0000_0000 && i < |Split(start, end)|
    requires var b := Split(start, end)[i];
             b.prefix > 0 && Aligned(parent, b.Bits() + 1) && parent <= b.base as nat
             && b.End() <= parent + Pow2(b.Bits() + 1)
    ensures parent < start || end + 1 < parent + Pow2(Split(start, end)[i].Bits() + 1)
  {
    var s := Split(start, end);
    var b := s[i];
    SplitAscending(start, end);
    if start <= parent && parent + Pow2(b.Bits() + 1) <= end + 1 {
      Pow2Values();
      var c := Block(parent as u32, b.prefix - 1);
      var j := SplitAbsorbs(start, end, c);
    }
  }

  // ----- at most two blocks of a size, at most 62 blocks

  /** The upper half of the next larger aligned block. */
  ghost predicate UpperHalf(b: Block) {
    !Aligned(b.base as nat, b.Bits() + 1)
  }

  lemma {:induction false} OddMultiple(n: nat, k: nat)
    requires Aligned(n, k) && !Aligned(n, k + 1)
    ensures n >= Pow2(k) && Aligned(n - Pow2(k), k + 1)
    decreases k
  {
    AlignedHalve(n, k + 1);
    if k > 0 {
      AlignedHalve(n, k);
      OddMultiple(n / 2, k - 1);
      AlignedHalve(n - Pow2(k), k + 1);
      assert (n - Pow2(k)) / 2 == n / 2 - Pow2(k - 1);
    } else {
      assert Aligned(n - 1, 1);
    }
  }

  /** An emitted upper half starts within its own size of `start`. */
  lemma UpperHalfNearStart(start: nat, end: nat, i: nat)
    requires end < 0x1_0000_0000 && i < |Split(start, end)|
    requires UpperHalf(Split(start, end)[i])
    ensures var b := Split(start, end)[i];
            start <= b.base as nat < start + Pow2(b.Bits()) && b.End() <= end + 1
  {
    var b := Split(start, end)[i];
    SplitAscending(start, end);
    OddMultiple(b.base as nat, b.Bits());
    if b.prefix == 0 {
      Pow2Values();
    } else {
      ParentSticksOut(start, end, i, b.base as nat - Pow2(b.Bits()));
    }
  }

  /** An emitted lower half ends within its own size of `end`. */
  lemma LowerHalfNearEnd(start: nat, end: nat, i: nat)
    requires end < 0x1_0000_0000 && i < |Split(start, end)|
    requires !UpperHalf(Split(start, end)[i])
    ensures var b := Split(start, end)[i];
            start <= b.base as nat && b.End() <= end + 1
            && (b.prefix > 0 ==> end + 1 < b.base as nat + Pow2(b.Bits() + 1))
  {
    var b := Split(start, end)[i];
    SplitAscending(start, end);
    if b.prefix > 0 {
      ParentSticksOut(start, end, i, b.base as nat);
    }
  }

  // The blocks grow while they are upper halves and shrink once they are lower halves.

  lemma UpperThenUpper(start: nat, end: nat, i: nat, j: nat)
    requires end < 0x1_0000_0000 && i < j < |Split(start, end)|
    requires UpperHalf(Split(start, end)[i]) && UpperHalf(Split(start, end)[j])
    ensures Split(start, end)[i].Bits() < Split(start, end)[j].Bits()
  {
    SplitAscending(start, end);
    UpperHalfNearStart(start, end, i);
    UpperHalfNearStart(start, end, j);
    var p, q := Split(start, end)[i].Bits(), Split(start, end)[j].Bits();
    if q < p { Pow2Monotone(q, p); }
  }

  lemma LowerThenLower(start: nat, end: nat, i: nat, j: nat)
    requires end < 0x1_0000_0000 && i < j < |Split(start, end)|
    requires !UpperHalf(Split(start, end)[i]) && !UpperHalf(Split(start, end)[j])
    ensures Split(start, end)[j].Bits() < Split(start, end)[i].Bits()
  {
    SplitAscending(start, end);
    LowerHalfNearEnd(start, end, i);
    LowerHalfNearEnd(start, end, j);
    var a, b := Split(start, end)[i], Split(start, end)[j];
    if a.prefix == 0 {
      Pow2Values();
    }
    if a.Bits() < b.Bits() { Pow2Monotone(a.Bits(), b.Bits()); }
  }

  /** A lower half overlapping the parent of an upper half that starts after it stays within that parent. */
  lemma NoCrossing(x: nat, j: nat, y: nat, k: nat)
    requires Aligned(x, j) && Aligned(y, k) && !Aligned(y, k + 1) && x < y < x + Pow2(k)
    ensures x + Pow2(j) <= y + Pow2(k)
  {
    OddMultiple(y, k);
    var parent := y - Pow2(k);
    if j <= k + 1 {
      Laminar(x, j, parent, k + 1);
    } else if y < x + Pow2(j) {
      Laminar(parent, k + 1, x, j);
    }
  }

  lemma LowerThenUpperImpossible(start: nat, end: nat, i: nat, j: nat)
    requires end < 0x1_0000_0000 && i < j < |Split(start, end)|
    requires UpperHalf(Split(start, end)[j])
    ensures UpperHalf(Split(start, end)[i])
  {
    var a, b := Split(start, end)[i], Split(start, end)[j];
    SplitAscending(start, end);
    UpperHalfNearStart(start, end, j);
    Pow2Values();
    if !UpperHalf(a) {
      NoCrossing(a.base as nat, a.Bits() + 1, b.base as nat, b.Bits());
      LowerHalfNearEnd(start, end, i);
    }
  }

  /** Each block size occurs at most twice. */
  lemma AtMostTwoOfASize(start: nat, end: nat, i: nat, j: nat, k: nat)
    requires end < 0x1_0000_0000 && i < j < k < |Split(start, end)|
    ensures var s := Split(start, end); !(s[i].prefix == s[j].prefix == s[k].prefix)
  {
    var s := Split(start, end);
    SplitAscending(start, end);
    if UpperHalf(s[j]) {
      LowerThenUpperImpossible(start, end, i, j);
      UpperThenUpper(start, end, i, j);
    } else {
      if UpperHalf(s[k]) { LowerThenUpperImpossible(start, end, j, k); }
      LowerThenLower(start, end, j, k);
    }
  }

  /** A key that rises along the emitted blocks. */
  ghost function Rank(b: Block, top: nat): int {
    if UpperHalf(b) then b.Bits() else top - b.Bits()
  }

  lemma RankRises(start: nat, end: nat, top: nat, i: nat, j: nat)
    requires end < 0x1_0000_0000 && i < j < |Split(start, end)|
    requires forall b :: b in Split(start, end) ==> 2 * b.Bits() < top
    ensures Rank(Split(start, end)[i], top) < Rank(Split(start, end)[j], top)
  {
    var a, b := Split(start, end)[i], Split(start, end)[j];
    assert 2 * a.Bits() < top && 2 * b.Bits() < top;
    if UpperHalf(b) {
      LowerThenUpperImpossible(start, end, i, j);
      UpperThenUpper(start, end, i, j);
    } else if !UpperHalf(a) {
      LowerThenLower(start, end, i, j);
    }
  }

  lemma RankCount(start: nat, end: nat, top: nat, lo: int, hi: int)
    requires end < 0x1_0000_0000
    requires forall b :: b in Split(start, end) ==> 2 * b.Bits() < top && lo <= Rank(b, top) <= hi
    ensures |Split(start, end)| == 0 || |Split(start, end)| <= hi - lo + 1
  {
    var s := Split(start, end);
    var ranks := seq(|s|, i requires 0 <= i < |s| => Rank(s[i], top));
    forall i, j | 0 <= i < j < |s| ensures ranks[i] < ranks[j] {
      RankRises(start, end, top, i, j);
    }
    forall i | 0 <= i < |s| ensures lo <= ranks[i] <= hi {
      assert s[i] in s;
    }
    Pigeonhole.IncreasingBetween(ranks, lo, hi);
  }

  lemma UpperHalvesNeedStart(end: nat, b: Block)
    requires end < 0x1_0000_0000 && b in Split(0, end)
    ensures !UpperHalf(b)
  {
    SplitAscending(0, end);
    var i :| 0 <= i < |Split(0, end)| && Split(0, end)[i] == b;
    if UpperHalf(b) {
      OddMultiple(b.base as nat, b.Bits());
      UpperHalfNearStart(0, end, i);
    }
  }

  lemma SpaceAligned(k: nat)
    requires k <= 32
    ensures Aligned(0x1_0000_0000, k)
  {
    Pow2Values();
    AlignedPow2(32);
    AlignedDown(Pow2(32), k, 32);
  }

  lemma LowerHalvesNeedEnd(start: nat, b: Block)
    requires b in Split(start, 0xFFFF_FFFF)
    ensures UpperHalf(b) || b.prefix == 0
  {
    var s := Split(start, 0xFFFF_FFFF);
    SplitAscending(start, 0xFFFF_FFFF);
    var i :| 0 <= i < |s| && s[i] == b;
    if !UpperHalf(b) && b.prefix > 0 {
      LowerHalfNearEnd(start, 0xFFFF_FFFF, i);
      SpaceAligned(b.Bits() + 1);
      NextMultiple(b.base as nat, 0x1_0000_0000, b.Bits() + 1);
    }
  }

  /** A block of half the address space reaches one end of it. */
  lemma HugeBlocks(start: nat, end: nat, b: Block)
    requires end < 0x1_0000_0000 && b in Split(start, end) && b.Bits() >= 31
    ensures start == 0 || end == 0xFFFF_FFFF
  {
    SplitAscending(start, end);
    Pow2Values();
    if b.base != 0 {
      AlignedDown(b.base as nat, 31, b.Bits());
      NextMultiple(0, b.base as nat, 31);
    }
  }

  /** No range needs more than 62 blocks. */
  lemma AtMost62Blocks(start: nat, end: nat)
    requires end < 0x1_0000_0000
    ensures |Split(start, end)| <= 62
  {
    var s := Split(start, end);
    SplitAscending(start, end);
    if start == 0 {
      forall b | b in s ensures !UpperHalf(b) { UpperHalvesNeedStart(end, b); }
      RankCount(start, end, 65, 33, 65);
    } else if end == 0xFFFF_FFFF {
      forall b | b in s ensures UpperHalf(b) || b.prefix == 0 { LowerHalvesNeedEnd(start, b); }
      RankCount(start, end, 65, 0, 33);
    } else {
      forall b | b in s ensures b.Bits() <= 30 {
        if b.Bits() >= 31 { HugeBlocks(start, end, b); }
      }
      RankCount(start, end, 61, 0, 61);
    }
  }

  // ----- minimality

  ghost predicate CoversExactly(cover: seq<Block>, start: nat, end: nat) {
    && (forall c :: c in cover ==> c.Valid())
    && (forall x: nat :: start <= x <= end <==> Covered(cover, x))
  }

  lemma CoverStaysInside(cover: seq<Block>, start: nat, end: nat, c: Block)
    requires CoversExactly(cover, start, end) && c in cover
    ensures c.Inside(start, end + 1)
  {
    assert c.Has(c.base as nat) && Covered(cover, c.base as nat);
    assert c.Has(c.End() - 1) && Covered(cover, c.End() - 1);
  }

  /** The index in `cover` of a block holding the first address of the i-th emitted block. */
  lemma Witness(start: nat, end: nat, cover: seq<Block>, i: nat) returns (w: nat)
    requires end < 0x1_0000_0000 && CoversExactly(cover, start, end) && i < |Split(start, end)|
    ensures w < |cover| && cover[w].Has(Split(start, end)[i].base as nat)
  {
    SplitAscending(start, end);
    var x := Split(start, end)[i].base as nat;
    assert Covered(cover, x);
    var c :| c in cover && c.Has(x);
    w :| 0 <= w < |cover| && cover[w] == c;
  }

  lemma OneBlockOneWitness(start: nat, end: nat, cover: seq<Block>, i: nat, j: nat, c: Block)
    requires end < 0x1_0000_0000 && CoversExactly(cover, start, end) && i < j < |Split(start, end)| && c in cover
    requires c.Has(Split(start, end)[i].base as nat)
    ensures !c.Has(Split(start, end)[j].base as nat)
  {
    SplitAscending(start, end);
    CoverStaysInside(cover, start, end, c);
    var k := SplitAbsorbs(start, end, c);
  }

  lemma {:induction false} Witnesses(start: nat, end: nat, cover: seq<Block>, n: nat) returns (ws: seq<nat>)
    requires end < 0x1_0000_0000 && CoversExactly(cover, start, end) && n <= |Split(start, end)|
    ensures |ws| == n && Pigeonhole.Distinct(ws)
    ensures forall i :: 0 <= i < n ==> ws[i] < |cover| && cover[ws[i]].Has(Split(start, end)[i].base as nat)
  {
    ws := [];
    if n > 0 {
      ws := Witnesses(start, end, cover, n - 1);
      var w := Witness(start, end, cover, n - 1);
      forall i | 0 <= i < n - 1 ensures ws[i] != w {
        OneBlockOneWitness(start, end, cover, i, n - 1, cover[ws[i]]);
      }
      ws := ws + [w];
    }
  }

  /** Minimality: no list of aligned power-of-two blocks covering exactly [start, end] is shorter. */
  lemma SplitIsMinimal(start: nat, end: nat, cover: seq<Block>)
    requires end < 0x1_0000_0000 && CoversExactly(cover, start, end)
    ensures |Split(start, end)| <= |cover|
  {
    var ws := Witnesses(start, end, cover, |Split(start, end)|);
    Pigeonhole.DistinctBelow(ws, |cover|);
  }

  /** The output itself is such a list. */
  lemma SplitIsACover(start: nat, end: nat)
    requires end < 0x1_0000_0000
    ensures CoversExactly(Split(start, end), start, end)
  {
    SplitAscending(start, end);
    forall x: nat ensures start <= x <= end <==> Covered(Split(start, end), x) {
      SplitCoversExactly(start, end, x);
    }
  }
}
