/** test_packet.c: the UDP checksum over a pseudo header and a datagram held as bytes. */
module UdpChecksum {
  import opened Words
  import opened Checksum

  type Bytes = seq<Byte>

  /** A 16-bit word of memory, as a host of either byte order reads it. */
  function Native(big: bool, x: Byte, y: Byte): Word16 {
    if big then 0x100 * x + y else x + 0x100 * y
  }

  /** `htons` */
  function Htons(big: bool, w: Word16): Word16 {
    if big then w else Swap(w)
  }

  /** The words of a buffer; RFC 1071 pads an odd length with a zero byte. */
  function WordsOf(big: bool, d: Bytes): (ws: seq<Word16>)
    ensures |ws| == (|d| + 1) / 2
  {
    seq((|d| + 1) / 2, i requires 0 <= i < (|d| + 1) / 2 =>
      Native(big, d[2 * i], if 2 * i + 1 < |d| then d[2 * i + 1] else 0))
  }

  /** in_cksum: the words of the first len bytes at addr, added to csum. The caller keeps the
      int accumulator from overflowing (NoOverflow). */
  method InCksum(big: bool, addr: Bytes, len: Word16, csum: nat) returns (answer: Word16)
    requires len <= |addr|
    requires csum + Sum(WordsOf(big, addr[..len])) <= INT_MAX
    ensures answer == FoldTwice(csum + Sum(WordsOf(big, addr[..len])))
  {
    hide FoldTwice, Sum, Native, Swap;
    ghost var ws := WordsOf(big, addr[..len]);
    var nleft: int, w, sum := len, 0, csum;
    SumNothing(ws);
    while nleft > 1
      invariant 0 <= nleft <= len && 2 * w + nleft == len
      invariant sum == csum + Sum(ws[..w])
      decreases nleft
    {
      SumNext(ws, w);
      assert sum + Native(big, addr[2 * w], addr[2 * w + 1]) <= INT_MAX by { SumPrefix(ws, w + 1); }
      sum := sum + Native(big, addr[2 * w], addr[2 * w + 1]);
      w, nleft := w + 1, nleft - 2;
    }
    if nleft == 1 {
      SumNext(ws, w);
      LastByte(big, addr[2 * w]);
      sum := sum + Htons(big, addr[2 * w] as int * 0x100);
      assert sum == csum + Sum(ws[..w + 1]);
      assert ws[..w + 1] == ws;
    } else {
      assert ws[..w] == ws;
    }
    answer := FoldTwice(sum);
  }

  lemma SumNothing(ws: seq<Word16>)
    ensures Sum(ws[..0]) == 0
  {
  }

  lemma SumNext(ws: seq<Word16>, k: nat)
    requires k < |ws|
    ensures Sum(ws[..k + 1]) == Sum(ws[..k]) + ws[k]
  {
    assert ws[..k + 1][..k] == ws[..k];
  }

  lemma {:induction false} SumPrefix(ws: seq<Word16>, k: nat)
    requires k <= |ws|
    ensures Sum(ws[..k]) <= Sum(ws)
    decreases |ws|
  {
    if k < |ws| {
      var n := |ws| - 1;
      SumPrefix(ws[..n], k);
      assert ws[..n][..k] == ws[..k];
    } else {
      assert ws[..k] == ws;
    }
  }

  /** The last byte of an odd length counts as a word with a zero byte behind it in memory. */
  lemma LastByte(big: bool, b: Byte)
    ensures Htons(big, b as int * 0x100) == Native(big, b, 0)
  {
  }

  datatype IpHeader = IpHeader(ihl: nat, saddr: Bytes, daddr: Bytes) {
    predicate Valid() { ihl < 16 && |saddr| == 4 && |daddr| == 4 }
  }

  /** The bytes of the pseudo header of RFC 768: addresses, zero, protocol 17, length. */
  function PseudoHeader(ip: IpHeader, len: Word16): (p: Bytes)
    requires ip.Valid()
    ensures |p| == 12
  {
    ip.saddr + ip.daddr + [0, 17, len / 0x100, len % 0x100]
  }

  lemma SumSix(ws: seq<Word16>)
    requires |ws| == 6
    ensures Sum(ws) == ws[0] as int + ws[1] + ws[2] + ws[3] + ws[4] + ws[5]
  {
    hide Sum;
    SumNothing(ws);
    SumNext(ws, 0);
    SumNext(ws, 1);
    SumNext(ws, 2);
    SumNext(ws, 3);
    SumNext(ws, 4);
    SumNext(ws, 5);
    assert ws[..6] == ws;
  }

  /** What udp_cksum sums: the words of the pseudo header, then those of the datagram. */
  function Covered(big: bool, ip: IpHeader, d: Bytes): seq<Word16>
    requires ip.Valid() && |d| < 0x1_0000
  {
    WordsOf(big, PseudoHeader(ip, |d|) + d)
  }

  lemma WordsJoin(big: bool, p: Bytes, d: Bytes)
    requires |p| % 2 == 0
    ensures WordsOf(big, p + d) == WordsOf(big, p) + WordsOf(big, d)
  {
    hide Native;
  }

  lemma CoveredSum(big: bool, ip: IpHeader, d: Bytes)
    requires ip.Valid() && |d| < 0x1_0000
    ensures Sum(Covered(big, ip, d))
         == Sum(WordsOf(big, PseudoHeader(ip, |d|))) + Sum(WordsOf(big, d))
  {
    hide Sum, WordsOf;
    WordsJoin(big, PseudoHeader(ip, |d|), d);
    SumJoin(WordsOf(big, PseudoHeader(ip, |d|)), WordsOf(big, d));
  }

  /** Everything the checksum covers, word by word: the two words of each address, the zero byte
      and the protocol, the length, and the datagram. */
  lemma CoveredWords(big: bool, ip: IpHeader, d: Bytes)
    requires ip.Valid() && |d| < 0x1_0000
    ensures var (s, t) := (ip.saddr, ip.daddr);
            Covered(big, ip, d) ==
            [Native(big, s[0], s[1]), Native(big, s[2], s[3]), Native(big, t[0], t[1]), Native(big, t[2], t[3]),
             Native(big, 0, 17), Native(big, |d| / 0x100, |d| % 0x100)] + WordsOf(big, d)
  {
    hide Native;
    WordsJoin(big, PseudoHeader(ip, |d|), d);
  }

  /** The sum over a datagram that fits an IPv4 packet is folded right. */
  lemma FoldsRight(big: bool, ip: IpHeader, d: Bytes)
    requires ip.Valid() && |d| <= 65515
    ensures FoldTwice(Sum(Covered(big, ip, d))) == Complement(OcSum(Covered(big, ip, d)))
  {
    hide FoldTwice, Sum, OcSum;
    CsumCorrect(Covered(big, ip, d));
  }

  /** udp_cksum: 0 when the IP header has options, else the fold of everything covered. */
  method UdpCksum(big: bool, ip: IpHeader, up: Bytes, udpLen: Word16) returns (r: Word16)
    requires ip.Valid() && udpLen <= |up|
    requires ip.ihl == 5 ==> Sum(Covered(big, ip, up[..udpLen])) <= INT_MAX
    ensures r == if ip.ihl == 5 then FoldTwice(Sum(Covered(big, ip, up[..udpLen]))) else 0
    ensures ip.ihl == 5 && udpLen <= 65515 ==>
              var (s, t) := (ip.saddr, ip.daddr);
              r == Complement(OcSum(
                [Native(big, s[0], s[1]), Native(big, s[2], s[3]), Native(big, t[0], t[1]), Native(big, t[2], t[3]),
                 Native(big, 0, 17), Native(big, udpLen / 0x100, udpLen % 0x100)] + WordsOf(big, up[..udpLen])))
  {
    hide FoldTwice, Sum, OcSum, WordsOf, Native;
    if ip.ihl != 5 { return 0; }
    var phu := PseudoHeader(ip, udpLen);
    var sp := WordsOf(big, phu);
    SumSix(sp);
    CoveredSum(big, ip, up[..udpLen]);
    r := InCksum(big, up, udpLen, sp[0] as int + sp[1] + sp[2] + sp[3] + sp[4] + sp[5]);
    CoveredWords(big, ip, up[..udpLen]);
    if udpLen <= 65515 { FoldsRight(big, ip, up[..udpLen]); }
  }

  // ---------------------------------------------------------------- the int accumulator

  lemma PseudoSum(big: bool, ip: IpHeader, len: Word16)
    requires ip.Valid()
    ensures Sum(WordsOf(big, PseudoHeader(ip, len)))
         <= 4 * 0xffff + Native(big, 0, 17) + Native(big, len / 0x100, len % 0x100)
  {
    hide Sum, Native;
    var ws := WordsOf(big, PseudoHeader(ip, len));
    SumSix(ws);
    assert ws[4] == Native(big, 0, 17);
    assert ws[5] == Native(big, len / 0x100, len % 0x100);
  }

  /** No datagram that fits an IPv4 packet overflows the int accumulator, on either byte order. */
  lemma NoOverflow(big: bool, ip: IpHeader, d: Bytes)
    requires ip.Valid() && |d| <= 65515
    ensures Sum(Covered(big, ip, d)) <= INT_MAX
  {
    hide Sum, WordsOf, Native;
    CoveredSum(big, ip, d);
    PseudoSum(big, ip, |d|);
    SumBound(WordsOf(big, d));
    assert Native(big, 0, 17) <= 17 * 0x100 by { NativeProtocol(big); }
  }

  lemma NativeProtocol(big: bool)
    ensures Native(big, 0, 17) <= 17 * 0x100
  {
  }

  // ---------------------------------------------------------------- what the checksum is for

  /** On hosts of different byte order the same bytes are computed, whatever they cover. */
  lemma ByteOrderFree(ip: IpHeader, d: Bytes)
    requires ip.Valid() && |d| <= 65515
    ensures FoldTwice(Sum(Covered(false, ip, d))) == Swap(FoldTwice(Sum(Covered(true, ip, d))))
  {
    hide FoldTwice, Sum, Swap;
    var ws := Covered(true, ip, d);
    assert Covered(false, ip, d) == SwapAll(ws) by { SwapWords(PseudoHeader(ip, |d|) + d); }
    SwapLaw(ws);
  }

  lemma SwapNative(x: Byte, y: Byte)
    ensures Swap(Native(true, x, y)) == Native(false, x, y)
  {
  }

  lemma SwapWords(d: Bytes)
    ensures WordsOf(false, d) == SwapAll(WordsOf(true, d))
  {
    hide Swap, Native;
    forall i | 0 <= i < (|d| + 1) / 2
      ensures WordsOf(false, d)[i] == Swap(WordsOf(true, d)[i])
    {
      SwapNative(d[2 * i], if 2 * i + 1 < |d| then d[2 * i + 1] else 0);
    }
  }

  /** The datagram with the word x, in the host's byte order, in its checksum field. */
  function Stored(big: bool, d: Bytes, x: Word16): (r: Bytes)
    requires |d| >= 8
    ensures |r| == |d|
  {
    var n := if big then x else Swap(x);
    d[6 := n / 0x100][7 := n % 0x100]
  }

  lemma StoredWord(big: bool, x: Word16)
    ensures var n := if big then x else Swap(x);
            Native(big, n / 0x100, n % 0x100) == x
  {
  }

  lemma StoredUpdates(big: bool, p: Bytes, d: Bytes, x: Word16)
    requires |p| == 12 && |d| >= 8
    ensures WordsOf(big, p + Stored(big, d, x)) == WordsOf(big, p + d)[9 := x]
  {
    hide Native, Swap;
    var s := Stored(big, d, x);
    StoredWord(big, x);
    forall i | 0 <= i < (12 + |d| + 1) / 2
      ensures WordsOf(big, p + s)[i] == WordsOf(big, p + d)[9 := x][i]
    {
      assert i != 9 ==> (p + s)[2 * i] == (p + d)[2 * i];
    }
  }

  /** A datagram that was summed with its checksum field zeroed sums to 0, and so is accepted,
      exactly when the field then holds the computed value, or 0xffff where that is 0. */
  lemma ReceiverAcceptsIff(big: bool, ip: IpHeader, d: Bytes, x: Word16)
    requires ip.Valid() && 8 <= |d| <= 65515 && d[6] == 0 && d[7] == 0
    ensures var c := FoldTwice(Sum(Covered(big, ip, d)));
            FoldTwice(Sum(Covered(big, ip, Stored(big, d, x)))) == 0
            <==> x == c || (c == 0 && x == 0xffff)
  {
    hide FoldTwice, Sum, Stored;
    var p := PseudoHeader(ip, |d|);
    StoredUpdates(big, p, d, x);
    var ws := Covered(big, ip, d);
    assert ws[9] == 0;
    VerifiesIff(ws, 9, x);
  }

  /** The four address words. */
  function AddressWords(big: bool, ip: IpHeader): (ws: seq<Word16>)
    requires ip.Valid()
    ensures |ws| == 4
  {
    var (s, t) := (ip.saddr, ip.daddr);
    [Native(big, s[0], s[1]), Native(big, s[2], s[3]), Native(big, t[0], t[1]), Native(big, t[2], t[3])]
  }

  /** A packet whose sum is 0, one word of whose addresses is changed, is still accepted exactly
      when the word goes from one representation of zero to the other. */
  lemma AddressChangeIff(big: bool, ip: IpHeader, other: IpHeader, d: Bytes, k: nat)
    requires ip.Valid() && other.Valid() && |d| <= 65515 && k < 4
    requires FoldTwice(Sum(Covered(big, ip, d))) == 0
    requires forall j | 0 <= j < 4 && j != k :: AddressWords(big, other)[j] == AddressWords(big, ip)[j]
    ensures var (w, x) := (AddressWords(big, ip)[k], AddressWords(big, other)[k]);
            FoldTwice(Sum(Covered(big, other, d))) == 0
            <==> x == w || (w == 0 && x == 0xffff) || (w == 0xffff && x == 0)
  {
    hide FoldTwice, Sum, Native, WordsOf, Covered;
    CoveredWords(big, ip, d);
    CoveredWords(big, other, d);
    var ws, x := Covered(big, ip, d), AddressWords(big, other)[k];
    assert Covered(big, other, d) == ws[k := x];
    ProtocolCounts(big, ws, k);
    ChangedWordIff(ws, k, x);
  }

  lemma ProtocolCounts(big: bool, ws: seq<Word16>, k: nat)
    requires |ws| >= 5 && k < 4 && ws[4] == Native(big, 0, 17)
    ensures Sum(ws) > ws[k]
  {
    hide Sum;
    SumUpdate(ws, k, 0);
    SumUpdate(ws[k := 0], 4, 0);
  }
}
