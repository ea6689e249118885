/** ip_range.c: splitting an address range into CIDR blocks. */
module IpRange {
  import opened Words

  /** network_addr_t: a network address and its prefix length. */
  datatype Block = Block(addr: Word, pfx: int)

  function SetBit(addr: Word, bitno: int, val: int): Word {
    var bit := Bit32(32 - bitno);
    if val != 0 then Wrap(Or(addr, bit)) else And(addr, Not32(bit))
  }

  function Netmask(prefix: int): Word {
    if prefix == 0 then Not32(Wrap(-1))
    else Not32(Wrap(Bit32(32 - prefix) - 1))
  }

  function Broadcast(addr: Word, prefix: int): Word {
    Wrap(Or(addr, Not32(Netmask(prefix))))
  }

  function Network(addr: Word, prefix: int): Word {
    And(addr, Netmask(prefix))
  }

  // ---------------------------------------------------------------- blocks

  /** The number of addresses under a prefix. */
  function Size(pfx: int): (n: nat)
    requires 0 <= pfx <= 32
    ensures n > 0
  {
    Pow2(32 - pfx)
  }

  /** A CIDR block: a legal prefix, and no address bit set beyond it. */
  ghost predicate IsNet(b: Block) {
    0 <= b.pfx <= 32 && Low(b.addr, 32 - b.pfx) == 0
  }

  /** The last address of a block. */
  function Last(b: Block): int
    requires 0 <= b.pfx <= 32
  {
    b.addr + Size(b.pfx) - 1
  }

  ghost predicate Inside(b: Block, a: Block)
    requires IsNet(a) && IsNet(b)
  {
    a.addr <= b.addr && Last(b) <= Last(a)
  }

  /** b lies inside one of the blocks. */
  ghost predicate InsideSome(b: Block, bs: seq<Block>)
    requires IsNet(b)
  {
    exists i :: 0 <= i < |bs| && IsNet(bs[i]) && Inside(b, bs[i])
  }

  ghost predicate Disjoint(a: Block, b: Block)
    requires IsNet(a) && IsNet(b)
  {
    Last(a) < b.addr || Last(b) < a.addr
  }

  lemma NetmaskIs(prefix: int)
    requires 0 <= prefix <= 32
    ensures Netmask(prefix) == TWO32 - Size(prefix)
  {
    if prefix == 0 {
      assert Wrap(-1) == TWO32 - 1;
      Pow2Of32();
    } else {
      BitIs(32 - prefix);
    }
  }

  lemma BitIs(k: int)
    requires 0 <= k < 32
    ensures Bit32(k) == Pow2(k) && Pow2(k) < TWO32
  {
    assert k % 32 == k;
  }

  /** Inside a word, the last address under a prefix is still a word. */
  lemma HostBitsFit(addr: Word, k: nat)
    requires k <= 32
    ensures addr - Low(addr, k) + Pow2(k) <= TWO32
  {
    Pow2Of32();
    LowCleared(addr, k);
    LowRoom(addr - Low(addr, k), k, 32);
    LowOfSmall(addr - Low(addr, k), 32);
  }

  lemma NetworkIs(addr: Word, prefix: int)
    requires 0 <= prefix <= 32
    ensures Network(addr, prefix) == addr - Low(addr, 32 - prefix)
  {
    hide And, Low, Netmask;
    NetmaskIs(prefix);
    Pow2Of32();
    Pow2Monotone(32 - prefix, 32);
    AndHighMask(addr, 32 - prefix, 32);
  }

  lemma BroadcastIs(addr: Word, prefix: int)
    requires 0 <= prefix <= 32
    ensures Broadcast(addr, prefix) == addr - Low(addr, 32 - prefix) + Size(prefix) - 1
  {
    hide Low, Pow2, Or;
    NetmaskIs(prefix);
    var host := Not32(Netmask(prefix));
    assert host == Pow2(32 - prefix) - 1;
    OrLowMask(addr, 32 - prefix);
    HostBitsFit(addr, 32 - prefix);
  }

  /** For every address and legal prefix, the mask operators split the address at the prefix:
      network() clears the host bits and broadcast() sets them. */
  lemma MaskArithmetic(addr: Word, prefix: int)
    requires 0 <= prefix <= 32
    ensures var net := Block(Network(addr, prefix), prefix);
            IsNet(net) && net.addr <= addr <= Last(net) && Broadcast(addr, prefix) == Last(net)
    ensures IsNet(Block(addr, prefix)) <==> Network(addr, prefix) == addr
  {
    hide Low, Network, Broadcast, Pow2;
    NetworkIs(addr, prefix);
    BroadcastIs(addr, prefix);
    LowCleared(addr, 32 - prefix);
  }

  lemma NetBounds(b: Block)
    requires IsNet(b)
    ensures Last(b) == Broadcast(b.addr, b.pfx) < TWO32
  {
    BroadcastIs(b.addr, b.pfx);
  }

  /** Two blocks never overlap partially: the longer prefix lies inside the shorter, or apart. */
  lemma NestedOrDisjoint(a: Block, b: Block)
    requires IsNet(a) && IsNet(b) && a.pfx <= b.pfx
    ensures Inside(b, a) || Disjoint(a, b)
  {
    AlignedRuns(a.addr, 32 - a.pfx, b.addr, 32 - b.pfx);
  }

  lemma AlignedRuns(a: nat, k: nat, b: nat, j: nat)
    requires Low(a, k) == 0 && Low(b, j) == 0 && j <= k
    ensures (a <= b && b + Pow2(j) <= a + Pow2(k)) || a + Pow2(k) <= b || b + Pow2(j) <= a
  {
    hide Low, Pow2;
    LowRoom(b, j, k);
    var base := b - Low(b, k);
    LowCleared(b, k);
    if a <= b < a + Pow2(k) {
      LowAdd(a, b - a, k);
    } else if b < a {
      AlignedGap(base, a, k);
    }
  }

  lemma AlignedGap(a: nat, b: nat, k: nat)
    requires Low(a, k) == 0 && Low(b, k) == 0 && a < b
    ensures a + Pow2(k) <= b
  {
    var d := b - a;
    if d < Pow2(k) {
      LowAdd(a, d, k);
    }
  }

  lemma {:induction false} LowAdd(a: nat, d: nat, k: nat)
    requires Low(a, k) == 0 && d < Pow2(k)
    ensures Low(a + d, k) == d
  {
    if k > 0 {
      assert a % 2 == 0;
      LowAdd(a / 2, d / 2, k - 1);
      assert (a + d) / 2 == a / 2 + d / 2;
    }
  }

  lemma {:induction false} LowCleared(a: nat, k: nat)
    ensures Low(a - Low(a, k), k) == 0
  {
    if k > 0 {
      LowCleared(a / 2, k - 1);
      assert (a - Low(a, k)) / 2 == a / 2 - Low(a / 2, k - 1);
    }
  }

  lemma {:induction false} LowRoom(b: nat, j: nat, k: nat)
    requires j <= k && Low(b, j) == 0
    ensures Low(b, k) + Pow2(j) <= Pow2(k)
  {
    if j > 0 { LowRoom(b / 2, j - 1, k - 1); }
  }

  lemma {:induction false} LowNextBit(a: nat, k: nat)
    ensures Low(a, k + 1) == Low(a, k) || Low(a, k + 1) == Low(a, k) + Pow2(k)
  {
    if k > 0 { LowNextBit(a / 2, k - 1); }
  }

  // ---------------------------------------------------------------- split_range

  datatype Exit = Done | InvalidMask | OutOfRange

  /** One run of split_range: the blocks it printed, the calls it made, how deep it nested
      below its first call, and how it ended (the error cases end the process). */
  datatype Run = Run(printed: seq<Block>, calls: nat, depth: nat, exit: Exit)

  function Nested(r: Run): Run {
    r.(calls := r.calls + 1, depth := r.depth + 1)
  }

  /** Two calls in a row; the second is reached only when the first returned. */
  function Both(r: Run, s: Run): Run {
    if r.exit != Done then Nested(r)
    else Run(r.printed + s.printed, 1 + r.calls + s.calls,
             1 + if r.depth < s.depth then s.depth else r.depth, s.exit)
  }

  function SplitRange(addr: Word, prefix: int, lo: Word, hi: Word): Run
    decreases 33 - prefix
  {
    if prefix < 0 || prefix > 32 then Run([], 1, 0, InvalidMask)
    else
      var bc := Broadcast(addr, prefix);
      if lo < addr || hi > bc then Run([], 1, 0, OutOfRange)
      else if lo == addr && hi == bc then Run([Block(addr, prefix)], 1, 0, Done)
      else
        var p := prefix + 1;
        var upper := SetBit(addr, p, 1);
        if hi < upper then Nested(SplitRange(addr, p, lo, hi))
        else if lo >= upper then Nested(SplitRange(upper, p, lo, hi))
        else Both(SplitRange(addr, p, lo, Broadcast(addr, p)), SplitRange(upper, p, upper, hi))
  }

  lemma SetBitIs(b: Block)
    requires IsNet(b) && b.pfx < 32
    ensures SetBit(b.addr, b.pfx + 1, 1) == b.addr + Pow2(31 - b.pfx)
  {
    var k := 31 - b.pfx;
    assert Size(b.pfx) == 2 * Pow2(k);
    hide Low, Pow2, Or;
    BitIs(k);
    LowNextBit(b.addr, k);
    OrSetsBit(b.addr, k);
    NetBounds(b);
  }

  lemma HalfNets(addr: nat, k: nat)
    requires Low(addr, k + 1) == 0
    ensures Low(addr, k) == 0 && Low(addr + Pow2(k), k) == 0
  {
    LowNextBit(addr, k);
    LowAdd(addr, Pow2(k), k + 1);
    LowNextBit(addr + Pow2(k), k);
  }

  /** Inside a block of more than one address, set_bit yields the start of its upper half. */
  lemma Halves(b: Block) returns (upper: Word)
    requires IsNet(b) && b.pfx < 32
    ensures upper == SetBit(b.addr, b.pfx + 1, 1)
    ensures IsNet(Block(b.addr, b.pfx + 1)) && IsNet(Block(upper, b.pfx + 1))
    ensures upper == Last(Block(b.addr, b.pfx + 1)) + 1
    ensures Last(Block(upper, b.pfx + 1)) == Last(b)
  {
    hide Low, SetBit;
    SetBitIs(b);
    upper := SetBit(b.addr, b.pfx + 1, 1);
    HalfNets(b.addr, 31 - b.pfx);
  }

  /** The blocks follow one another without gap or overlap, from lo to hi. */
  ghost predicate Tiles(bs: seq<Block>, lo: int, hi: int) {
    && (forall i | 0 <= i < |bs| :: IsNet(bs[i]))
    && bs != [] && bs[0].addr == lo && Last(bs[|bs| - 1]) == hi
    && (forall i | 0 < i < |bs| :: bs[i].addr == Last(bs[i - 1]) + 1)
  }

  /** Every CIDR block between lo and hi lies inside one of bs. */
  ghost predicate Maximal(bs: seq<Block>, lo: int, hi: int)
  {
    forall q: Block | IsNet(q) && lo <= q.addr && Last(q) <= hi ::
      InsideSome(q, bs)
  }

  lemma TilesJoin(xs: seq<Block>, ys: seq<Block>, lo: int, mid: int, hi: int)
    requires Tiles(xs, lo, mid) && Tiles(ys, mid + 1, hi)
    ensures Tiles(xs + ys, lo, hi)
  {
    var bs := xs + ys;
    forall i | 0 < i < |bs| ensures bs[i].addr == Last(bs[i - 1]) + 1 {
      if i < |xs| { assert bs[i] == xs[i]; }
      else if i == |xs| { assert bs[i] == ys[0]; }
      else { assert bs[i] == ys[i - |xs|] && bs[i - 1] == ys[i - |xs| - 1]; }
    }
  }

  /** A block inside an interval that is not all of its parent lies in one half of the parent. */
  lemma InOneHalf(q: Block, parent: Block, lo: int, hi: int, upper: Word)
    requires IsNet(q) && IsNet(parent) && parent.pfx < 32
    requires parent.addr <= lo <= q.addr && Last(q) <= hi <= Last(parent)
    requires lo != parent.addr || hi != Last(parent)
    requires IsNet(Block(parent.addr, parent.pfx + 1)) && upper == Last(Block(parent.addr, parent.pfx + 1)) + 1
    ensures Last(q) < upper || upper <= q.addr
  {
    if q.pfx <= parent.pfx {
      Pow2Monotone(32 - parent.pfx, 32 - q.pfx);
    } else {
      NestedOrDisjoint(Block(parent.addr, parent.pfx + 1), q);
    }
  }

  lemma MaximalJoin(xs: seq<Block>, ys: seq<Block>, parent: Block, lo: int, hi: int, upper: Word)
    requires IsNet(parent) && parent.pfx < 32
    requires parent.addr <= lo < upper <= hi <= Last(parent) && (lo != parent.addr || hi != Last(parent))
    requires IsNet(Block(parent.addr, parent.pfx + 1)) && upper == Last(Block(parent.addr, parent.pfx + 1)) + 1
    requires Tiles(xs, lo, upper - 1) && Tiles(ys, upper, hi)
    requires Maximal(xs, lo, upper - 1) && Maximal(ys, upper, hi)
    ensures Tiles(xs + ys, lo, hi) && Maximal(xs + ys, lo, hi)
  {
    var bs := xs + ys;
    TilesJoin(xs, ys, lo, upper - 1, hi);
    forall q: Block | IsNet(q) && lo <= q.addr && Last(q) <= hi
      ensures InsideSome(q, bs)
    {
      InOneHalf(q, parent, lo, hi, upper);
      if Last(q) < upper {
        var i :| 0 <= i < |xs| && IsNet(xs[i]) && Inside(q, xs[i]);
        assert bs[i] == xs[i];
      } else {
        var i :| 0 <= i < |ys| && IsNet(ys[i]) && Inside(q, ys[i]);
        assert bs[|xs| + i] == ys[i];
      }
    }
  }

  lemma WholeBlock(b: Block)
    requires IsNet(b)
    ensures Tiles([b], b.addr, Last(b)) && Maximal([b], b.addr, Last(b))
  {
    assert [b][0] == b;
  }

  /** What one call of split_range on a range within a block amounts to. */
  lemma SplitCases(b: Block, lo: Word, hi: Word) returns (upper: Word)
    requires IsNet(b) && b.pfx < 32 && b.addr <= lo <= hi <= Last(b)
    requires lo != b.addr || hi != Last(b)
    ensures upper == SetBit(b.addr, b.pfx + 1, 1)
    ensures IsNet(Block(b.addr, b.pfx + 1)) && IsNet(Block(upper, b.pfx + 1))
    ensures upper == Last(Block(b.addr, b.pfx + 1)) + 1 && Last(Block(upper, b.pfx + 1)) == Last(b)
    ensures b.addr < upper <= Last(b)
    ensures SplitRange(b.addr, b.pfx, lo, hi) ==
            var p := b.pfx + 1;
            if hi < upper then Nested(SplitRange(b.addr, p, lo, hi))
            else if lo >= upper then Nested(SplitRange(upper, p, lo, hi))
            else Both(SplitRange(b.addr, p, lo, upper - 1), SplitRange(upper, p, upper, hi))
  {
    upper := Halves(b);
    NetBounds(b);
    NetBounds(Block(b.addr, b.pfx + 1));
  }

  lemma SplitWhole(b: Block)
    requires IsNet(b)
    ensures Last(b) < TWO32 && SplitRange(b.addr, b.pfx, b.addr, Last(b)) == Run([b], 1, 0, Done)
  {
    NetBounds(b);
  }

  /** On a range within a block, split_range returns normally; the blocks it prints tile the
      range, and no CIDR block of the range escapes them. */
  lemma {:induction false} SplitCorrect(b: Block, lo: Word, hi: Word)
    requires IsNet(b) && b.addr <= lo <= hi <= Last(b)
    ensures var r := SplitRange(b.addr, b.pfx, lo, hi);
            r.exit == Done && Tiles(r.printed, lo, hi) && Maximal(r.printed, lo, hi)
    decreases 33 - b.pfx
  {
    hide SplitRange, Tiles, Maximal;
    if lo == b.addr && hi == Last(b) {
      SplitWhole(b);
      WholeBlock(b);
    } else {
      var upper := SplitCases(b, lo, hi);
      var lower := Block(b.addr, b.pfx + 1);
      if hi < upper {
        SplitCorrect(lower, lo, hi);
      } else if lo >= upper {
        SplitCorrect(Block(upper, b.pfx + 1), lo, hi);
      } else {
        SplitCorrect(lower, lo, upper - 1);
        SplitCorrect(Block(upper, b.pfx + 1), upper, hi);
        var xs := SplitRange(b.addr, b.pfx + 1, lo, upper - 1).printed;
        var ys := SplitRange(upper, b.pfx + 1, upper, hi).printed;
        MaximalJoin(xs, ys, b, lo, hi, upper);
      }
    }
  }

  // ---------------------------------------------------------------- exact cover, least count

  /** The address x lies in one of the blocks. */
  ghost predicate Covers(bs: seq<Block>, x: int) {
    exists i :: 0 <= i < |bs| && IsNet(bs[i]) && bs[i].addr <= x <= Last(bs[i])
  }

  /** Tiles are ascending and apart: a later block begins above the end of an earlier one. */
  lemma {:induction false} TilesAscend(bs: seq<Block>, lo: int, hi: int, i: nat, j: nat)
    requires Tiles(bs, lo, hi) && i < j < |bs|
    ensures Last(bs[i]) < bs[j].addr
    decreases j
  {
    if i < j - 1 { TilesAscend(bs, lo, hi, i, j - 1); }
  }

  /** Tiles cover every address of the range, and no other. */
  lemma TilesCover(bs: seq<Block>, lo: int, hi: int, x: int)
    requires Tiles(bs, lo, hi)
    ensures lo <= x <= hi <==> Covers(bs, x)
  {
    if lo <= x <= hi {
      TilesReach(bs, lo, hi, x, |bs| - 1);
    }
    forall i | 0 <= i < |bs| ensures lo <= bs[i].addr && Last(bs[i]) <= hi {
      if i > 0 { TilesAscend(bs, lo, hi, 0, i); }
      if i < |bs| - 1 { TilesAscend(bs, lo, hi, i, |bs| - 1); }
    }
  }

  lemma {:induction false} TilesReach(bs: seq<Block>, lo: int, hi: int, x: int, j: nat)
    requires Tiles(bs, lo, hi) && j < |bs| && lo <= x <= Last(bs[j])
    ensures Covers(bs, x)
    decreases j
  {
    if x < bs[j].addr { TilesReach(bs, lo, hi, x, j - 1); }
  }

  /** Blocks pairwise apart. */
  ghost predicate Apart(bs: seq<Block>) {
    && (forall i | 0 <= i < |bs| :: IsNet(bs[i]))
    && (forall i, j | 0 <= i < j < |bs| :: Last(bs[i]) < bs[j].addr)
  }

  /** If the blocks bs are apart, cover exactly what the blocks cs cover, and every block of cs
      lies inside one of bs, then cs has at least as many blocks. */
  lemma LeastCount(bs: seq<Block>, cs: seq<Block>)
    requires Apart(bs)
    requires forall i | 0 <= i < |cs| :: IsNet(cs[i])
    requires forall x :: Covers(bs, x) ==> Covers(cs, x)
    requires forall j | 0 <= j < |cs| :: InsideSome(cs[j], bs)
    ensures |bs| <= |cs|
  {
    forall i | 0 <= i < |bs| ensures HoldsOne(bs, cs, i) {
      var x: int := bs[i].addr;
      assert Covers(bs, x);
      var j :| 0 <= j < |cs| && IsNet(cs[j]) && cs[j].addr <= x <= Last(cs[j]);
      var i' :| 0 <= i' < |bs| && IsNet(bs[i']) && Inside(cs[j], bs[i']);
      assert i' == i;
    }
    var f := seq(|bs|, i requires 0 <= i < |bs| && HoldsOne(bs, cs, i) => Pick(bs, cs, i));
    forall i, i' | 0 <= i < i' < |bs| ensures f[i] != f[i'] {
      assert Inside(cs[f[i]], bs[i]) && Inside(cs[f[i']], bs[i']);
    }
    InjectionBound(f, |cs|);
  }

  ghost predicate HoldsOne(bs: seq<Block>, cs: seq<Block>, i: nat) {
    && i < |bs| && IsNet(bs[i])
    && exists j :: 0 <= j < |cs| && IsNet(cs[j]) && Inside(cs[j], bs[i])
  }

  ghost function Pick(bs: seq<Block>, cs: seq<Block>, i: nat): (j: int)
    requires HoldsOne(bs, cs, i)
    ensures 0 <= j < |cs| && IsNet(cs[j]) && Inside(cs[j], bs[i])
  {
    var j :| 0 <= j < |cs| && IsNet(cs[j]) && Inside(cs[j], bs[i]);
    j
  }

  /** Distinct numbers below m: at most m of them. */
  lemma {:induction false} InjectionBound(f: seq<int>, m: nat)
    requires forall i | 0 <= i < |f| :: 0 <= f[i] < m
    requires forall i, j | 0 <= i < j < |f| :: f[i] != f[j]
    ensures |f| <= m
    decreases m
  {
    if f != [] {
      var last := f[|f| - 1];
      var g := seq(|f| - 1, i requires 0 <= i < |f| - 1 => if f[i] == m - 1 then last else f[i]);
      InjectionBound(g, m - 1);
    }
  }

  /** The minimum promised for "-s": whatever CIDR blocks cover exactly the range, split_range
      prints no more blocks than that. */
  lemma SplitMinimum(lo: Word, hi: Word, cs: seq<Block>)
    requires lo <= hi
    requires forall i | 0 <= i < |cs| :: IsNet(cs[i])
    requires forall x :: Covers(cs, x) <==> lo <= x <= hi
    ensures |SplitRange(0, 0, lo, hi).printed| <= |cs|
  {
    SplitRoot(lo, hi);
    var bs := SplitRange(0, 0, lo, hi).printed;
    forall i, j | 0 <= i < j < |bs| ensures Last(bs[i]) < bs[j].addr { TilesAscend(bs, lo, hi, i, j); }
    forall x | Covers(bs, x) ensures Covers(cs, x) { TilesCover(bs, lo, hi, x); }
    forall j | 0 <= j < |cs| ensures InsideSome(cs[j], bs) {
      WithinRange(cs, j, lo, hi);
    }
    LeastCount(bs, cs);
  }

  lemma WithinRange(cs: seq<Block>, j: nat, lo: int, hi: int)
    requires forall i | 0 <= i < |cs| :: IsNet(cs[i])
    requires forall x :: Covers(cs, x) <==> lo <= x <= hi
    requires j < |cs|
    ensures lo <= cs[j].addr && Last(cs[j]) <= hi
  {
    var first: int := cs[j].addr;
    assert Covers(cs, first) && Covers(cs, Last(cs[j]));
  }

  /** split_range(0, 0, lo, hi) with lo <= hi. */
  lemma SplitRoot(lo: Word, hi: Word)
    requires lo <= hi
    ensures var r := SplitRange(0, 0, lo, hi);
            r.exit == Done && Tiles(r.printed, lo, hi) && Maximal(r.printed, lo, hi)
  {
    var root := Block(0, 0);
    RootIsNet();
    SplitCorrect(root, lo, hi);
  }

  lemma RootIsNet()
    ensures IsNet(Block(0, 0)) && Last(Block(0, 0)) == TWO32 - 1
  {
    LowOfZero(32);
    Pow2Of32();
  }

  // ---------------------------------------------------------------- cost

  lemma SingleAddress(b: Block)
    requires IsNet(b)
    ensures 0 <= b.pfx <= 32
    ensures b.addr <= Last(b) && (b.pfx == 32 <==> Last(b) == b.addr)
  {
    if b.pfx < 32 { Pow2Monotone(0, 31 - b.pfx); }
  }

  /** What a range that shares one end with its block may cost: one printed block per prefix
      bit left, and two calls. */
  lemma NetPrefix(b: Block)
    requires IsNet(b)
    ensures 0 <= b.pfx <= 32
  {
  }

  ghost predicate CheapRun(r: Run, b: Block) {
    |r.printed| <= 32 - b.pfx && r.calls <= 2 * (32 - b.pfx)
  }

  lemma {:induction false} StartCost(b: Block, hi: Word)
    requires IsNet(b) && b.addr <= hi < Last(b)
    ensures CheapRun(SplitRange(b.addr, b.pfx, b.addr, hi), b)
    decreases 33 - b.pfx
  {
    hide SplitRange, Last, SetBit, IsNet;
    NetPrefix(b);
    SingleAddress(b);
    var upper := SplitCases(b, b.addr, hi);
    var lower, higher := Block(b.addr, b.pfx + 1), Block(upper, b.pfx + 1);
    SingleAddress(higher);
    SplitWhole(lower);
    if hi < upper - 1 {
      StartCost(lower, hi);
    } else if upper <= hi {
      StartCost(higher, hi);
    }
  }

  lemma {:induction false} EndCost(b: Block, lo: Word, hi: Word)
    requires IsNet(b) && b.addr < lo <= hi == Last(b)
    ensures CheapRun(SplitRange(b.addr, b.pfx, lo, hi), b)
    decreases 33 - b.pfx
  {
    hide SplitRange, Last, SetBit, IsNet;
    NetPrefix(b);
    SingleAddress(b);
    var upper := SplitCases(b, lo, hi);
    var lower, higher := Block(b.addr, b.pfx + 1), Block(upper, b.pfx + 1);
    SingleAddress(lower);
    SplitWhole(higher);
    if upper < lo {
      EndCost(higher, lo, hi);
    } else if lo < upper {
      EndCost(lower, lo, upper - 1);
    }
  }

  /** Any range inside a block: the range is cut in two at most once, and from there on each
      part shares an end with its block. */
  lemma {:induction false} TwoSidedCost(b: Block, lo: Word, hi: Word)
    requires IsNet(b) && b.addr <= lo <= hi <= Last(b)
    ensures var r := SplitRange(b.addr, b.pfx, lo, hi);
            && |r.printed| <= (if b.pfx <= 30 then 62 - 2 * b.pfx else 1)
            && r.calls <= (if b.pfx <= 30 then 125 - 4 * b.pfx else 33 - b.pfx)
    decreases 33 - b.pfx
  {
    hide SplitRange, Last;
    SingleAddress(b);
    if lo == b.addr && hi == Last(b) {
      SplitWhole(b);
    } else {
      var upper := SplitCases(b, lo, hi);
      if hi < upper {
        TwoSidedCost(Block(b.addr, b.pfx + 1), lo, hi);
      } else if lo >= upper {
        TwoSidedCost(Block(upper, b.pfx + 1), lo, hi);
      } else {
        CutInTwo(b, lo, hi, upper);
      }
    }
  }

  lemma CutInTwo(b: Block, lo: Word, hi: Word, upper: Word)
    requires IsNet(b) && b.pfx < 32 && b.addr <= lo < upper <= hi <= Last(b)
    requires lo != b.addr || hi != Last(b)
    requires upper == SetBit(b.addr, b.pfx + 1, 1)
    ensures b.pfx <= 30
    ensures var r := SplitRange(b.addr, b.pfx, lo, hi);
            |r.printed| <= 62 - 2 * b.pfx && r.calls <= 125 - 4 * b.pfx
  {
    hide SplitRange, Last;
    var u := SplitCases(b, lo, hi);
    var lower, higher := Block(b.addr, b.pfx + 1), Block(upper, b.pfx + 1);
    SingleAddress(lower);
    SingleAddress(higher);
    SplitWhole(lower);
    SplitWhole(higher);
    if lo != b.addr {
      EndCost(lower, lo, upper - 1);
    }
    if hi != Last(b) {
      StartCost(higher, hi);
    }
  }

  /** The recursion never goes deeper than the prefix can grow. */
  lemma {:induction false} SplitDepth(addr: Word, prefix: nat, lo: Word, hi: Word)
    requires prefix <= 32 && SplitRange(addr, prefix, lo, hi).exit == Done
    ensures SplitRange(addr, prefix, lo, hi).depth <= 32 - prefix
    decreases 33 - prefix
  {
    hide SetBit, Broadcast;
    var r := SplitRange(addr, prefix, lo, hi);
    if r.calls > 1 {
      var p, upper := prefix + 1, SetBit(addr, prefix + 1, 1);
      if prefix < 32 {
        if hi < upper {
          SplitDepth(addr, p, lo, hi);
        } else if lo >= upper {
          SplitDepth(upper, p, lo, hi);
        } else {
          SplitDepth(addr, p, lo, Broadcast(addr, p));
          SplitDepth(upper, p, upper, hi);
        }
      }
    }
  }

  /** The worst case claimed in the comment above split_range: 62 blocks, 125 calls, 32 levels. */
  lemma SplitCost(lo: Word, hi: Word)
    requires lo <= hi
    ensures var r := SplitRange(0, 0, lo, hi);
            |r.printed| <= 62 && r.calls <= 125 && r.depth <= 32
  {
    RootIsNet();
    TwoSidedCost(Block(0, 0), lo, hi);
    SplitRoot(lo, hi);
    SplitDepth(0, 0, lo, hi);
  }

  /** All of a block but its first address, or all but its last: the cost is exactly the bound. */
  lemma {:induction false} AllButOneCost(b: Block, lo: Word, hi: Word)
    requires IsNet(b) && b.pfx < 32
    requires (lo == b.addr + 1 && hi == Last(b)) || (lo == b.addr && hi == Last(b) - 1)
    ensures var r := SplitRange(b.addr, b.pfx, lo, hi);
            r.exit == Done && |r.printed| == 32 - b.pfx && r.calls == 2 * (32 - b.pfx) && r.depth == 32 - b.pfx
    decreases 32 - b.pfx
  {
    hide SplitRange, Last, SetBit, IsNet;
    NetPrefix(b);
    SingleAddress(b);
    var upper := SplitCases(b, lo, hi);
    var lower, higher := Block(b.addr, b.pfx + 1), Block(upper, b.pfx + 1);
    SingleAddress(lower);
    SingleAddress(higher);
    if b.pfx == 31 {
      SplitWhole(lower);
      SplitWhole(higher);
    } else if hi == Last(b) {
      AllButOneCost(lower, lo, upper - 1);
      SplitWhole(higher);
    } else {
      SplitWhole(lower);
      AllButOneCost(higher, upper, hi);
    }
  }

  /** ... and 0.0.0.1 to 255.255.255.254 attains all three bounds. */
  lemma SplitWorstCase()
    ensures var r := SplitRange(0, 0, 1, 0xFFFF_FFFE);
            r.exit == Done && |r.printed| == 62 && r.calls == 125 && r.depth == 32
  {
    hide SplitRange, Last;
    RootIsNet();
    var root := Block(0, 0);
    var upper := SplitCases(root, 1, 0xFFFF_FFFE);
    SingleAddress(Block(0, 1));
    SingleAddress(Block(upper, 1));
    AllButOneCost(Block(0, 1), 1, upper - 1);
    AllButOneCost(Block(upper, 1), upper, 0xFFFF_FFFE);
  }

  /** With the limits reversed nothing is printed: the recursion follows one path down until
      a limit falls outside or the prefix passes 32, and the program exits with an error.
      So split_range returns normally exactly when lo <= hi. */
  lemma {:induction false} SplitReversed(addr: Word, prefix: int, lo: Word, hi: Word)
    requires hi < lo
    ensures var r := SplitRange(addr, prefix, lo, hi); r.exit != Done && r.printed == []
    decreases 33 - prefix
  {
    var stop, next := ReversedCall(addr, prefix, lo, hi);
    hide SplitRange;
    if !stop {
      SplitReversed(next, prefix + 1, lo, hi);
    }
  }

  lemma ReversedCall(addr: Word, prefix: int, lo: Word, hi: Word) returns (stop: bool, next: Word)
    requires hi < lo
    ensures var r := SplitRange(addr, prefix, lo, hi);
            if stop then r.exit != Done && r.printed == []
            else prefix <= 32 && r == Nested(SplitRange(next, prefix + 1, lo, hi))
  {
    stop, next := true, addr;
    if 0 <= prefix <= 32 {
      BroadcastIs(addr, prefix);
      if addr <= lo && hi <= Broadcast(addr, prefix) {
        var upper := SetBit(addr, prefix + 1, 1);
        stop, next := false, if hi < upper then addr else upper;
      }
    }
  }
}
