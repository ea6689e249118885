/** ip_range.c: joining network addresses into ranges (-j), or into the fewest blocks (-J). */
module CidrJoin {
  import opened Words
  import opened IpRange

  datatype Range = Range(lo: Word, hi: Word)

  /** One line of output: an address range, or a block in prefix notation. */
  datatype Line = RangeLine(range: Range) | NetLine(block: Block)

  function ComparNetaddr(a: Block, b: Block): int {
    if a.addr < b.addr then -1
    else if a.addr > b.addr then 1
    else if a.pfx < b.pfx then -1
    else if a.pfx > b.pfx then 1
    else 0
  }

  ghost predicate Sorted(bs: seq<Block>) {
    forall i, j | 0 <= i < j < |bs| :: ComparNetaddr(bs[i], bs[j]) <= 0
  }

  ghost predicate AllNets(bs: seq<Block>) {
    forall i | 0 <= i < |bs| :: IsNet(bs[i])
  }

  // ---------------------------------------------------------------- qsort by compar_netaddr

  function Insert(b: Block, bs: seq<Block>): (r: seq<Block>)
    ensures multiset(r) == multiset(bs) + multiset{b}
  {
    if bs == [] || ComparNetaddr(b, bs[0]) <= 0 then [b] + bs
    else
      assert bs == [bs[0]] + bs[1..];
      [bs[0]] + Insert(b, bs[1..])
  }

  /** A sort by compar_netaddr. Any other yields the same list (AnySort). */
  function QSort(bs: seq<Block>): (r: seq<Block>)
    ensures multiset(r) == multiset(bs)
  {
    if bs == [] then []
    else
      assert bs == [bs[0]] + bs[1..];
      Insert(bs[0], QSort(bs[1..]))
  }

  lemma {:induction false} InsertSorted(b: Block, bs: seq<Block>)
    requires Sorted(bs)
    ensures Sorted(Insert(b, bs))
  {
    if bs != [] && ComparNetaddr(b, bs[0]) > 0 {
      InsertSorted(b, bs[1..]);
      HeadFirst(b, bs[1..], bs[0]);
      Prepend(bs[0], Insert(b, bs[1..]));
    }
  }

  lemma HeadFirst(b: Block, tail: seq<Block>, head: Block)
    requires ComparNetaddr(b, head) > 0 && forall x | x in tail :: ComparNetaddr(head, x) <= 0
    ensures forall x | x in Insert(b, tail) :: ComparNetaddr(head, x) <= 0
  {
    forall x | x in Insert(b, tail) ensures ComparNetaddr(head, x) <= 0 {
      assert x in multiset(Insert(b, tail));
      if x != b { assert x in multiset(tail); }
    }
  }

  lemma Prepend(head: Block, bs: seq<Block>)
    requires Sorted(bs) && forall x | x in bs :: ComparNetaddr(head, x) <= 0
    ensures Sorted([head] + bs)
  {
  }

  lemma {:induction false} QSortSorted(bs: seq<Block>)
    ensures Sorted(QSort(bs))
  {
    if bs != [] {
      QSortSorted(bs[1..]);
      InsertSorted(bs[0], QSort(bs[1..]));
    }
  }

  /** Elements that compare as equal are identical, so there is one sorted list of a multiset:
      whatever sorts by compar_netaddr yields the list of QSort. */
  lemma AnySort(bs: seq<Block>, out: seq<Block>)
    requires Sorted(out) && multiset(out) == multiset(bs)
    ensures out == QSort(bs)
  {
    QSortSorted(bs);
    SortedUnique(out, QSort(bs));
  }

  lemma {:induction false} SortedUnique(a: seq<Block>, b: seq<Block>)
    requires Sorted(a) && Sorted(b) && multiset(a) == multiset(b)
    ensures a == b
    decreases |a|
  {
    hide ComparNetaddr;
    assert |multiset(a)| == |a| && |multiset(b)| == |b|;
    if a != [] {
      LeastFirst(a, b);
      LeastFirst(b, a);
      ComparZero(a[0], b[0]);
      SameTails(a, b);
      SortedUnique(a[1..], b[1..]);
    }
  }

  lemma SameTails(a: seq<Block>, b: seq<Block>)
    requires a != [] && b != [] && a[0] == b[0] && multiset(a) == multiset(b)
    ensures multiset(a[1..]) == multiset(b[1..])
  {
    assert a == [a[0]] + a[1..] && b == [b[0]] + b[1..];
    assert multiset(a[1..]) == multiset(a) - multiset{a[0]};
    assert multiset(b[1..]) == multiset(b) - multiset{b[0]};
  }

  lemma LeastFirst(a: seq<Block>, b: seq<Block>)
    requires Sorted(a) && a != [] && b != [] && multiset(a) == multiset(b)
    ensures ComparNetaddr(a[0], b[0]) <= 0
  {
    assert b[0] in multiset(a);
    var i :| 0 <= i < |a| && a[i] == b[0];
    if i > 0 { assert ComparNetaddr(a[0], a[i]) <= 0; } else { ComparSame(a[0]); }
  }

  lemma ComparSame(a: Block)
    ensures ComparNetaddr(a, a) == 0
  {
  }

  lemma ComparZero(a: Block, b: Block)
    requires ComparNetaddr(a, b) <= 0 && ComparNetaddr(b, a) <= 0
    ensures a == b
  {
  }

  lemma SameBlocks(bs: seq<Block>, cs: seq<Block>)
    requires multiset(bs) == multiset(cs)
    ensures forall b :: b in bs <==> b in cs
    ensures AllNets(bs) <==> AllNets(cs)
    ensures forall x :: Covers(bs, x) <==> Covers(cs, x)
  {
    assert forall b :: b in bs <==> b in multiset(bs);
    assert forall b :: b in cs <==> b in multiset(cs);
    forall x ensures Covers(bs, x) <==> Covers(cs, x) {
      CoversIn(bs, x);
      CoversIn(cs, x);
    }
    assert AllNets(bs) <==> forall b | b in bs :: IsNet(b);
    assert AllNets(cs) <==> forall b | b in cs :: IsNet(b);
  }

  lemma CoversIn(bs: seq<Block>, x: int)
    ensures Covers(bs, x) <==> exists b :: b in bs && IsNet(b) && b.addr <= x <= Last(b)
  {
    if b :| b in bs && IsNet(b) && b.addr <= x <= Last(b) {
      var i :| 0 <= i < |bs| && bs[i] == b;
    }
  }

  // ---------------------------------------------------------------- ranges

  /** Ascending ranges with at least one address missing between neighbours. */
  ghost predicate Separated(rs: seq<Range>) {
    && (forall i | 0 <= i < |rs| :: rs[i].lo <= rs[i].hi)
    && (forall i, j | 0 <= i < j < |rs| :: rs[i].hi + 1 < rs[j].lo)
  }

  ghost predicate InRanges(rs: seq<Range>, x: int) {
    exists i :: 0 <= i < |rs| && rs[i].lo <= x <= rs[i].hi
  }

  lemma InRangesSnoc(rs: seq<Range>, r: Range, x: int)
    ensures InRanges(rs + [r], x) <==> InRanges(rs, x) || r.lo <= x <= r.hi
  {
    var all := rs + [r];
    if i :| 0 <= i < |rs| && rs[i].lo <= x <= rs[i].hi { assert all[i] == rs[i]; }
    if r.lo <= x <= r.hi { assert all[|rs|] == r; }
  }

  lemma CoversSnoc(bs: seq<Block>, b: Block, x: int)
    requires IsNet(b)
    ensures Covers(bs + [b], x) <==> Covers(bs, x) || b.addr <= x <= Last(b)
  {
    var all := bs + [b];
    if i :| 0 <= i < |bs| && IsNet(bs[i]) && bs[i].addr <= x <= Last(bs[i]) { assert all[i] == bs[i]; }
    if b.addr <= x <= Last(b) { assert all[|bs|] == b; }
  }

  /** Separated ranges with the same addresses are the same ranges: they are the maximal
      intervals of that set of addresses, in ascending order. */
  lemma {:induction false} SeparatedUnique(rs: seq<Range>, ts: seq<Range>)
    requires Separated(rs) && Separated(ts)
    requires forall x :: InRanges(rs, x) <==> InRanges(ts, x)
    ensures rs == ts
    decreases |rs|
  {
    if rs == [] {
      if ts != [] { assert InRanges(ts, ts[0].lo as int); }
    } else {
      assert InRanges(rs, rs[0].lo as int);
      FirstRange(rs, ts);
      FirstRange(ts, rs);
      forall x ensures InRanges(rs[1..], x) <==> InRanges(ts[1..], x) {
        TailRanges(rs, x);
        TailRanges(ts, x);
      }
      SeparatedUnique(rs[1..], ts[1..]);
      assert rs == [rs[0]] + rs[1..] && ts == [ts[0]] + ts[1..];
    }
  }

  lemma FirstRange(rs: seq<Range>, ts: seq<Range>)
    requires Separated(rs) && Separated(ts) && rs != [] && ts != []
    requires forall x :: InRanges(rs, x) <==> InRanges(ts, x)
    ensures rs[0].lo >= ts[0].lo && (rs[0].lo == ts[0].lo ==> rs[0].hi <= ts[0].hi)
  {
    assert InRanges(rs, rs[0].lo as int);
    assert !InRanges(ts, ts[0].hi + 1);
    assert !InRanges(rs, ts[0].hi + 1);
  }

  lemma TailRanges(rs: seq<Range>, x: int)
    requires Separated(rs) && rs != []
    ensures InRanges(rs[1..], x) <==> InRanges(rs, x) && x > rs[0].hi
  {
    if i :| 0 <= i < |rs| && rs[i].lo <= x <= rs[i].hi && x > rs[0].hi {
      assert rs[1..][i - 1] == rs[i];
    }
    if i :| 0 <= i < |rs[1..]| && rs[1..][i].lo <= x <= rs[1..][i].hi {
      assert rs[i + 1] == rs[1..][i];
    }
  }

  // ---------------------------------------------------------------- what a printed list means

  /** Address ranges from low to high, ascending and with a gap between neighbours. */
  ghost predicate AscendingRanges(out: seq<Line>) {
    && (forall i | 0 <= i < |out| :: out[i].RangeLine? && out[i].range.lo <= out[i].range.hi)
    && (forall i, j | 0 <= i < j < |out| :: out[i].range.hi + 1 < out[j].range.lo)
  }

  /** Masked networks, ascending and apart. */
  ghost predicate AscendingNets(out: seq<Line>) {
    && (forall i | 0 <= i < |out| :: out[i].NetLine? && IsNet(out[i].block))
    && (forall i, j | 0 <= i < j < |out| :: Last(out[i].block) < out[j].block.addr)
  }

  ghost predicate OnSomeLine(out: seq<Line>, x: int) {
    exists k :: 0 <= k < |out| && OnLine(out[k], x)
  }

  ghost predicate OnLine(l: Line, x: int) {
    if l.RangeLine? then l.range.lo <= x <= l.range.hi
    else IsNet(l.block) && l.block.addr <= x <= Last(l.block)
  }

  // ---------------------------------------------------------------- netaddr_to_range

  /** The lines printed for one finished range. */
  function Emit(r: Range, jflg: bool): seq<Line> {
    if jflg then NetLines(SplitRange(0, 0, r.lo, r.hi).printed) else [RangeLine(r)]
  }

  function NetLines(bs: seq<Block>): seq<Line> {
    seq(|bs|, i requires 0 <= i < |bs| => NetLine(bs[i]))
  }

  function EmitAll(rs: seq<Range>, jflg: bool): seq<Line> {
    if rs == [] then [] else EmitAll(rs[..|rs| - 1], jflg) + Emit(rs[|rs| - 1], jflg)
  }

  /** A later network that reaches past hi starts above hi: blocks are nested or disjoint, and
      the sort puts the larger of two blocks with the same address first. */
  lemma NoPartialOverlap(earlier: Block, later: Block)
    requires IsNet(earlier) && IsNet(later) && ComparNetaddr(earlier, later) <= 0
    requires Last(earlier) < Last(later)
    ensures Last(earlier) < later.addr
  {
    if earlier.pfx <= later.pfx {
      NestedOrDisjoint(earlier, later);
    } else {
      NestedOrDisjoint(later, earlier);
    }
    NetBounds(earlier);
    Pow2Monotone(0, 32 - earlier.pfx);
    Pow2Monotone(0, 32 - later.pfx);
  }

  /** After the first i networks: the finished ranges rs and the open range cur. */
  ghost predicate Joined(ns: seq<Block>, i: nat, rs: seq<Range>, cur: Range) {
    && AllNets(ns) && Sorted(ns) && 0 < i <= |ns|
    && (exists k :: 0 <= k < i && ns[k].addr == cur.lo)
    && (exists k :: 0 <= k < i && Last(ns[k]) == cur.hi)
    && Separated(rs + [cur])
    && (forall x :: Covers(ns[..i], x) <==> InRanges(rs + [cur], x))
  }

  lemma StartJoin(ns: seq<Block>)
    requires AllNets(ns) && Sorted(ns) && ns != []
    ensures Last(ns[0]) < TWO32 && Joined(ns, 1, [], Range(ns[0].addr, Last(ns[0])))
  {
    NetBounds(ns[0]);
    var cur := Range(ns[0].addr, Last(ns[0]));
    assert ns[..1] == [] + [ns[0]];
    forall x ensures Covers(ns[..1], x) <==> InRanges([] + [cur], x) {
      CoversSnoc([], ns[0], x);
      InRangesSnoc([], cur, x);
    }
  }

  lemma AbsorbStep(ns: seq<Block>, i: nat, rs: seq<Range>, cur: Range)
    requires i < |ns| && Joined(ns, i, rs, cur) && Last(ns[i]) <= cur.hi
    ensures Joined(ns, i + 1, rs, cur)
  {
    assert cur.lo <= ns[i].addr;
    StepCover(ns, i, rs, cur, rs, cur);
  }

  lemma ExtendStep(ns: seq<Block>, i: nat, rs: seq<Range>, cur: Range, cur': Range)
    requires i < |ns| && Joined(ns, i, rs, cur)
    requires ns[i].addr == cur.hi + 1 && cur' == Range(cur.lo, cur'.hi) && cur'.hi == Last(ns[i])
    ensures Joined(ns, i + 1, rs, cur')
  {
    var all, all' := rs + [cur], rs + [cur'];
    assert all[|rs|] == cur;
    assert forall k | 0 <= k < |rs| :: all[k] == all'[k];
    StepCover(ns, i, rs, cur, rs, cur');
  }

  lemma FreshStep(ns: seq<Block>, i: nat, rs: seq<Range>, cur: Range, cur': Range)
    requires i < |ns| && Joined(ns, i, rs, cur)
    requires cur.hi < Last(ns[i]) && ns[i].addr != cur.hi + 1
    requires cur'.lo == ns[i].addr && cur'.hi == Last(ns[i])
    ensures Joined(ns, i + 1, rs + [cur], cur')
  {
    var k :| 0 <= k < i && Last(ns[k]) == cur.hi;
    NoPartialOverlap(ns[k], ns[i]);
    var all := rs + [cur];
    assert forall j | 0 <= j < |all| :: all[j].hi <= cur.hi by { assert all[|rs|] == cur; }
    StepCover(ns, i, rs, cur, all, cur');
  }

  /** The three ways a step of the loop accounts for the next network. */
  lemma StepCover(netaddrs: seq<Block>, i: nat, rs: seq<Range>, cur: Range, rs': seq<Range>, cur': Range)
    requires i < |netaddrs| && IsNet(netaddrs[i])
    requires forall x :: Covers(netaddrs[..i], x) <==> InRanges(rs + [cur], x)
    requires var b := netaddrs[i];
             || (rs' == rs && cur' == cur && cur.lo <= b.addr && Last(b) <= cur.hi)
             || (rs' == rs && cur'.lo == cur.lo <= cur.hi && cur.hi + 1 == b.addr && cur'.hi == Last(b) >= b.addr)
             || (rs' == rs + [cur] && cur'.lo == b.addr && cur'.hi == Last(b))
    ensures forall x :: Covers(netaddrs[..i + 1], x) <==> InRanges(rs' + [cur'], x)
  {
    assert netaddrs[..i + 1] == netaddrs[..i] + [netaddrs[i]];
    forall x ensures Covers(netaddrs[..i + 1], x) <==> InRanges(rs' + [cur'], x) {
      CoversSnoc(netaddrs[..i], netaddrs[i], x);
      InRangesSnoc(rs, cur, x);
      InRangesSnoc(rs', cur', x);
    }
  }

  /** For any list of masked networks: the finished ranges are separated and cover exactly the
      union of the networks, and what is printed is one line per range, or with -J the blocks
      split_range prints for each. */
  method NetaddrToRange(input: seq<Block>, jflg: bool) returns (out: seq<Line>, ghost ranges: seq<Range>)
    requires AllNets(input)
    ensures Separated(ranges)
    ensures forall x :: InRanges(ranges, x) <==> Covers(input, x)
    ensures out == EmitAll(ranges, jflg)
    ensures if jflg then AscendingNets(out) else AscendingRanges(out)
    ensures forall x :: OnSomeLine(out, x) <==> Covers(input, x)
    ensures jflg ==>
              forall cs | AllNets(cs) && (forall x :: Covers(cs, x) <==> Covers(input, x)) :: |out| <= |cs|
  {
    hide Joined, Separated, InRanges, Covers, Sorted, Emit, EmitAll, QSort, Broadcast, IsNet, Last;
    hide AscendingNets, AscendingRanges, OnSomeLine;
    out, ranges := [], [];
    EmitNothing(jflg);
    var netaddrs := QSort(input);
    QSortSorted(input);
    SameBlocks(netaddrs, input);
    var n := |netaddrs|;
    if n == 0 {
      NothingJoined(input);
      PrintedMeans(input, ranges, jflg);
      return;
    }
    StartJoin(netaddrs);
    NetBounds(netaddrs[0]);
    var lo := netaddrs[0].addr;
    var hi := Broadcast(netaddrs[0].addr, netaddrs[0].pfx);
    var i := 1;
    while i < n
      invariant 1 <= i <= n
      invariant Joined(netaddrs, i, ranges, Range(lo, hi))
      invariant out == EmitAll(ranges, jflg)
    {
      var next := netaddrs[i];
      NetBounds(next);
      ghost var cur := Range(lo, hi);
      if Broadcast(next.addr, next.pfx) <= hi {
        AbsorbStep(netaddrs, i, ranges, cur);
      } else if next.addr == Wrap(hi + 1) {
        hi := Broadcast(next.addr, next.pfx);
        ExtendStep(netaddrs, i, ranges, cur, Range(lo, hi));
      } else {
        EmitSnoc(ranges, cur, jflg);
        out := out + Emit(Range(lo, hi), jflg);
        lo := next.addr;
        hi := Broadcast(next.addr, next.pfx);
        FreshStep(netaddrs, i, ranges, cur, Range(lo, hi));
        ranges := ranges + [cur];
      }
      i := i + 1;
    }
    JoinedAll(netaddrs, ranges, Range(lo, hi));
    EmitSnoc(ranges, Range(lo, hi), jflg);
    out := out + Emit(Range(lo, hi), jflg);
    ranges := ranges + [Range(lo, hi)];
    PrintedMeans(input, ranges, jflg);
  }

  lemma EmitNothing(jflg: bool)
    ensures EmitAll([], jflg) == []
  {
  }

  lemma EmitSnoc(rs: seq<Range>, r: Range, jflg: bool)
    ensures EmitAll(rs + [r], jflg) == EmitAll(rs, jflg) + Emit(r, jflg)
  {
    hide Emit;
    assert (rs + [r])[..|rs|] == rs;
  }

  lemma NothingJoined(input: seq<Block>)
    requires |QSort(input)| == 0
    ensures Separated([]) && forall x :: InRanges([], x) <==> Covers(input, x)
  {
    assert multiset(QSort(input)) == multiset(input);
    assert |multiset(input)| == |input|;
  }

  lemma JoinedAll(ns: seq<Block>, rs: seq<Range>, cur: Range)
    requires Joined(ns, |ns|, rs, cur)
    ensures Separated(rs + [cur])
    ensures forall x :: InRanges(rs + [cur], x) <==> Covers(ns, x)
  {
    assert ns[..|ns|] == ns;
  }

  // ---------------------------------------------------------------- the minimum promised for -J

  /** The blocks printed with -J. */
  function BlocksOf(rs: seq<Range>): seq<Block> {
    if rs == [] then []
    else BlocksOf(rs[..|rs| - 1]) + SplitRange(0, 0, rs[|rs| - 1].lo, rs[|rs| - 1].hi).printed
  }

  lemma {:induction false} EmitBlocks(rs: seq<Range>)
    ensures EmitAll(rs, true) == NetLines(BlocksOf(rs))
  {
    hide SplitRange;
    if rs != [] { EmitBlocks(rs[..|rs| - 1]); }
  }

  /** What is known of the blocks printed for separated ranges. */
  ghost predicate LeastBlocks(bs: seq<Block>, rs: seq<Range>) {
    && Apart(bs)
    && (forall x :: Covers(bs, x) ==> InRanges(rs, x))
    && (forall q: Block, i | IsNet(q) && 0 <= i < |rs| && rs[i].lo <= q.addr && Last(q) <= rs[i].hi ::
          InsideSome(q, bs))
  }

  lemma {:induction false} BlocksOfLeast(rs: seq<Range>)
    requires Separated(rs)
    ensures LeastBlocks(BlocksOf(rs), rs)
  {
    hide LeastBlocks, Separated, SplitRange, Tiles, Maximal;
    if rs == [] {
      LeastNothing();
    } else {
      var front, r := rs[..|rs| - 1], rs[|rs| - 1];
      FrontSeparated(rs);
      BlocksOfLeast(front);
      SplitRoot(r.lo, r.hi);
      assert rs == front + [r];
      AppendLeast(BlocksOf(front), front, SplitRange(0, 0, r.lo, r.hi).printed, r);
    }
  }

  lemma LeastNothing()
    ensures LeastBlocks([], [])
  {
  }

  lemma FrontSeparated(rs: seq<Range>)
    requires Separated(rs) && rs != []
    ensures Separated(rs[..|rs| - 1]) && rs[|rs| - 1].lo <= rs[|rs| - 1].hi
  {
  }

  lemma AppendLeast(bs: seq<Block>, rs: seq<Range>, cs: seq<Block>, r: Range)
    requires LeastBlocks(bs, rs) && Separated(rs + [r])
    requires Tiles(cs, r.lo, r.hi) && Maximal(cs, r.lo, r.hi)
    ensures LeastBlocks(bs + cs, rs + [r])
  {
    hide Tiles, Maximal, Separated;
    AppendApart(bs, rs, cs, r);
    forall x | Covers(bs + cs, x) ensures InRanges(rs + [r], x) {
      CoversJoin(bs, cs, x);
      TilesCover(cs, r.lo, r.hi, x);
      InRangesSnoc(rs, r, x);
    }
    var all := rs + [r];
    forall q: Block, i | IsNet(q) && 0 <= i < |all| && all[i].lo <= q.addr && Last(q) <= all[i].hi
      ensures InsideSome(q, bs + cs)
    {
      AppendInside(bs, rs, cs, r, q, i);
    }
  }

  lemma AppendInside(bs: seq<Block>, rs: seq<Range>, cs: seq<Block>, r: Range, q: Block, i: nat)
    requires LeastBlocks(bs, rs) && Tiles(cs, r.lo, r.hi) && Maximal(cs, r.lo, r.hi)
    requires IsNet(q) && i < |rs + [r]| && (rs + [r])[i].lo <= q.addr && Last(q) <= (rs + [r])[i].hi
    ensures InsideSome(q, bs + cs)
  {
    hide IsNet, Inside, Apart, Covers, InRanges, Tiles;
    if i < |rs| {
      assert (rs + [r])[i] == rs[i];
      var j :| 0 <= j < |bs| && IsNet(bs[j]) && Inside(q, bs[j]);
      assert (bs + cs)[j] == bs[j];
    } else {
      var j :| 0 <= j < |cs| && IsNet(cs[j]) && Inside(q, cs[j]);
      assert (bs + cs)[|bs| + j] == cs[j];
    }
  }

  lemma CoversJoin(bs: seq<Block>, cs: seq<Block>, x: int)
    ensures Covers(bs + cs, x) <==> Covers(bs, x) || Covers(cs, x)
  {
    var all := bs + cs;
    if i :| 0 <= i < |all| && IsNet(all[i]) && all[i].addr <= x <= Last(all[i]) {
      assert all[i] == if i < |bs| then bs[i] else cs[i - |bs|];
    }
    if i :| 0 <= i < |bs| && IsNet(bs[i]) && bs[i].addr <= x <= Last(bs[i]) {
      assert all[i] == bs[i];
    }
    if i :| 0 <= i < |cs| && IsNet(cs[i]) && cs[i].addr <= x <= Last(cs[i]) {
      assert all[|bs| + i] == cs[i];
    }
  }

  lemma AppendApart(bs: seq<Block>, rs: seq<Range>, cs: seq<Block>, r: Range)
    requires LeastBlocks(bs, rs) && Separated(rs + [r]) && Tiles(cs, r.lo, r.hi)
    ensures Apart(bs + cs)
  {
    var all := bs + cs;
    forall i, j | 0 <= i < j < |all| ensures Last(all[i]) < all[j].addr {
      if |bs| <= i {
        TilesAscend(cs, r.lo, r.hi, i - |bs|, j - |bs|);
      } else if |bs| <= j {
        EndsBefore(bs, rs, r, i);
        StartsWithin(cs, r.lo, r.hi, j - |bs|);
      }
    }
  }

  lemma EndsBefore(bs: seq<Block>, rs: seq<Range>, r: Range, i: nat)
    requires LeastBlocks(bs, rs) && Separated(rs + [r]) && i < |bs|
    ensures Last(bs[i]) < r.lo
  {
    Pow2Monotone(0, 32 - bs[i].pfx);
    assert Covers(bs, Last(bs[i]));
    var k :| 0 <= k < |rs| && rs[k].lo <= Last(bs[i]) <= rs[k].hi;
    assert (rs + [r])[k] == rs[k] && (rs + [r])[|rs|] == r;
  }

  lemma StartsWithin(cs: seq<Block>, lo: int, hi: int, j: nat)
    requires Tiles(cs, lo, hi) && j < |cs|
    ensures lo <= cs[j].addr
  {
    if j > 0 { TilesAscend(cs, lo, hi, 0, j); }
  }

  /** A block whose addresses all lie in separated ranges lies in one of them. */
  lemma WithinOneRange(q: Block, rs: seq<Range>) returns (i: nat)
    requires IsNet(q) && Separated(rs)
    requires forall x | q.addr <= x <= Last(q) :: InRanges(rs, x)
    ensures i < |rs| && rs[i].lo <= q.addr && Last(q) <= rs[i].hi
  {
    Pow2Monotone(0, 32 - q.pfx);
    var first: int := q.addr;
    assert InRanges(rs, first);
    i :| 0 <= i < |rs| && rs[i].lo <= first <= rs[i].hi;
    assert !InRanges(rs, rs[i].hi + 1);
  }

  /** The minimum promised for "-J": whatever CIDR blocks cover exactly the addresses of the
      ranges, no fewer of them are needed than netaddr_to_range prints. */
  lemma JoinMinimum(rs: seq<Range>, cs: seq<Block>)
    requires Separated(rs) && AllNets(cs)
    requires forall x :: Covers(cs, x) <==> InRanges(rs, x)
    ensures |EmitAll(rs, true)| <= |cs|
    ensures forall x :: Covers(BlocksOf(rs), x) <==> InRanges(rs, x)
  {
    EmitBlocks(rs);
    BlocksOfLeast(rs);
    JoinCovers(rs);
    var bs := BlocksOf(rs);
    forall j | 0 <= j < |cs| ensures InsideSome(cs[j], bs) {
      forall x | cs[j].addr <= x <= Last(cs[j]) ensures InRanges(rs, x) {
        assert Covers(cs, x);
      }
      var k := WithinOneRange(cs[j], rs);
    }
    LeastCount(bs, cs);
  }

  lemma JoinCovers(rs: seq<Range>)
    requires Separated(rs)
    ensures forall x :: Covers(BlocksOf(rs), x) <==> InRanges(rs, x)
  {
    hide Separated, Covers, InRanges, BlocksOf, Apart;
    BlocksOfLeast(rs);
    forall x ensures Covers(BlocksOf(rs), x) <==> InRanges(rs, x) {
      if InRanges(rs, x) { BlocksReach(rs, x); }
    }
  }

  lemma {:induction false} BlocksReach(rs: seq<Range>, x: int)
    requires Separated(rs) && InRanges(rs, x)
    ensures Covers(BlocksOf(rs), x)
  {
    hide Covers, Tiles, Maximal, SplitRange;
    var front, r := rs[..|rs| - 1], rs[|rs| - 1];
    var last := SplitRange(0, 0, r.lo, r.hi).printed;
    assert rs == front + [r];
    InRangesSnoc(front, r, x);
    CoversJoin(BlocksOf(front), last, x);
    if r.lo <= x <= r.hi {
      SplitRoot(r.lo, r.hi);
      TilesCover(last, r.lo, r.hi, x);
    } else {
      BlocksReach(front, x);
    }
  }

  // ---------------------------------------------------------------- what the printed lines mean

  lemma {:induction false} EmitRanges(rs: seq<Range>)
    ensures |EmitAll(rs, false)| == |rs|
    ensures forall i | 0 <= i < |rs| :: EmitAll(rs, false)[i] == RangeLine(rs[i])
  {
    if rs != [] { EmitRanges(rs[..|rs| - 1]); }
  }

  lemma RangesMean(rs: seq<Range>)
    requires Separated(rs)
    ensures AscendingRanges(EmitAll(rs, false))
    ensures forall x :: OnSomeLine(EmitAll(rs, false), x) <==> InRanges(rs, x)
  {
    hide EmitAll;
    EmitRanges(rs);
    var out := EmitAll(rs, false);
    forall x ensures OnSomeLine(out, x) <==> InRanges(rs, x) {
      if k :| 0 <= k < |out| && OnLine(out[k], x) { assert rs[k].lo <= x <= rs[k].hi; }
      if k :| 0 <= k < |rs| && rs[k].lo <= x <= rs[k].hi { assert OnLine(out[k], x); }
    }
  }

  lemma NetsMean(bs: seq<Block>)
    requires Apart(bs)
    ensures AscendingNets(NetLines(bs))
    ensures forall x :: OnSomeLine(NetLines(bs), x) <==> Covers(bs, x)
  {
    hide Last;
    var out := NetLines(bs);
    forall x ensures OnSomeLine(out, x) <==> Covers(bs, x) {
      if k :| 0 <= k < |out| && OnLine(out[k], x) { assert out[k] == NetLine(bs[k]); }
      if k :| 0 <= k < |bs| && IsNet(bs[k]) && bs[k].addr <= x <= Last(bs[k]) { assert OnLine(out[k], x); }
    }
  }

  lemma PrintedMeans(input: seq<Block>, rs: seq<Range>, jflg: bool)
    requires Separated(rs) && forall x :: InRanges(rs, x) <==> Covers(input, x)
    ensures var out := EmitAll(rs, jflg);
            && (if jflg then AscendingNets(out) else AscendingRanges(out))
            && (forall x :: OnSomeLine(out, x) <==> Covers(input, x))
            && (jflg ==>
                  forall cs | AllNets(cs) && (forall x :: Covers(cs, x) <==> Covers(input, x)) :: |out| <= |cs|)
  {
    hide Separated, InRanges, Covers, EmitAll, BlocksOf, AllNets, NetLines;
    hide OnSomeLine, AscendingNets, AscendingRanges;
    if jflg {
      EmitBlocks(rs);
      BlocksApart(rs);
      NetsMean(BlocksOf(rs));
      JoinCovers(rs);
      forall cs | AllNets(cs) && (forall x :: Covers(cs, x) <==> Covers(input, x))
        ensures |EmitAll(rs, true)| <= |cs|
      {
        JoinMinimum(rs, cs);
      }
    } else {
      RangesMean(rs);
    }
  }

  lemma BlocksApart(rs: seq<Range>)
    requires Separated(rs)
    ensures Apart(BlocksOf(rs))
  {
    BlocksOfLeast(rs);
  }
}
