/** test_assembly.cpp: client_validate_header, TCP header prediction with SIMD compares. */
module HeaderPredict {
  import opened Words

  type Header = h: seq<Byte> | |h| == 64 witness seq(64, _ => 0)

  const CLIENTDC1: Word := 0x037F8000
  const CLIENTDC2: Word := 0xC03F3C00
  const ACKMASK: Word := 0x80000000
  const IPOVERHEAD := 40

  // ---------------------------------------------------------------- loads and stores

  function Load16(h: Header, i: nat): (w: Word)
    requires i + 2 <= 64
    ensures w < 0x1_0000
  {
    h[i] as int + 0x100 * (h[i + 1] as int)
  }

  function Load32(h: Header, i: nat): Word
    requires i + 4 <= 64
  {
    h[i] as int + 0x100 * (h[i + 1] as int) + 0x1_0000 * (h[i + 2] as int) + 0x100_0000 * (h[i + 3] as int)
  }

  /** The bytes of a stored word, lowest address first. */
  function ByteOf(w: Word, k: nat): Byte
    requires k < 4
  {
    if k == 0 then w % 0x100
    else if k == 1 then w / 0x100 % 0x100
    else if k == 2 then w / 0x1_0000 % 0x100
    else w / 0x100_0000
  }

  function Store16(h: Header, i: nat, w: Word): Header
    requires i + 2 <= 64
  {
    h[i := ByteOf(w, 0)][i + 1 := ByteOf(w, 1)]
  }

  function Store32(h: Header, i: nat, w: Word): Header
    requires i + 4 <= 64
  {
    h[i := ByteOf(w, 0)][i + 1 := ByteOf(w, 1)][i + 2 := ByteOf(w, 2)][i + 3 := ByteOf(w, 3)]
  }

  /** `bswap` */
  function BSwap(w: Word): Word {
    0x100_0000 * ByteOf(w, 0) + 0x1_0000 * ByteOf(w, 1) + 0x100 * ByteOf(w, 2) + ByteOf(w, 3)
  }

  /** `rol` of a 16-bit register by 8 */
  function Rol8(w: Word): (r: Word)
    requires w < 0x1_0000
    ensures r < 0x1_0000
  {
    0x100 * (w % 0x100) + w / 0x100
  }

  lemma BytesOfLoad(h: Header, i: nat)
    requires i + 4 <= 64
    ensures forall k: nat | k < 4 :: ByteOf(Load32(h, i), k) == h[i + k]
    ensures BSwap(Load32(h, i)) == Net32(h, i)
    ensures BSwap(Net32(h, i)) == Load32(h, i)
  {
    var a, b, c, d := h[i], h[i + 1], h[i + 2], h[i + 3];
    BytesUnique(Load32(h, i), a, b, c, d);
    BytesUnique(Net32(h, i), d, c, b, a);
  }

  lemma BytesUnique(w: Word, a: Byte, b: Byte, c: Byte, d: Byte)
    requires w == a + 0x100 * b + 0x1_0000 * c + 0x100_0000 * d
    ensures ByteOf(w, 0) == a && ByteOf(w, 1) == b && ByteOf(w, 2) == c && ByteOf(w, 3) == d
  {
    assert w / 0x100 == b + 0x100 * c + 0x1_0000 * d;
    assert w / 0x1_0000 == c + 0x100 * d;
  }

  lemma SwappedBytes(w: Word)
    ensures ByteOf(BSwap(w), 0) == ByteOf(w, 3) && ByteOf(BSwap(w), 1) == ByteOf(w, 2)
    ensures ByteOf(BSwap(w), 2) == ByteOf(w, 1) && ByteOf(BSwap(w), 3) == ByteOf(w, 0)
  {
    var v := BSwap(w);
    var a: int, b: int, c: int, d: int := ByteOf(w, 0), ByteOf(w, 1), ByteOf(w, 2), ByteOf(w, 3);
    assert v == 0x100_0000 * a + 0x1_0000 * b + 0x100 * c + d;
    hide ByteOf, BSwap;
    BytesUnique(v, d, c, b, a);
  }

  lemma WordOfBytes(w: Word)
    ensures w == 0x100_0000 * (ByteOf(w, 3) as int) + 0x1_0000 * (ByteOf(w, 2) as int)
                 + 0x100 * (ByteOf(w, 1) as int) + ByteOf(w, 0) as int
  {
    var a: int := w / 0x100;
    var b := a / 0x100;
    assert w == 0x100 * a + w % 0x100 && a == 0x100 * b + a % 0x100 && b == 0x100 * (b / 0x100) + b % 0x100;
    NextByte(w, 0x100);
    NextByte(w, 0x1_0000);
  }

  lemma NextByte(w: int, p: int)
    requires p == 0x100 || p == 0x1_0000
    ensures w / p / 0x100 == w / (0x100 * p)
  {
  }

  /** Storing a byte-swapped number puts it into the header in network order. */
  lemma StoreSwapped(h: Header, i: nat, w: Word)
    requires i + 4 <= 64
    ensures Net32(Store32(h, i, BSwap(w)), i) == w
  {
    SwappedBytes(w);
    WordOfBytes(w);
    hide ByteOf, BSwap;
  }

  // ---------------------------------------------------------------- the compare

  /** `pcmpeqb` and `pmovmskb`: bit k tells whether byte at + k agrees, for n bytes. */
  function EqMask(a: Header, b: Header, at: nat, n: nat): (m: nat)
    requires at + n <= 64
    ensures m < Pow2(n)
    decreases n
  {
    if n == 0 then 0 else (if a[at] == b[at] then 1 else 0) + 2 * EqMask(a, b, at + 1, n - 1)
  }

  lemma {:induction false} EqMaskBits(a: Header, b: Header, at: nat, n: nat, k: nat)
    requires at + n <= 64 && k < n
    ensures BitAt(EqMask(a, b, at, n), k) <==> a[at + k] == b[at + k]
    decreases n
  {
    hide Pow2;
    var m := EqMask(a, b, at + 1, n - 1);
    if k > 0 {
      assert ((if a[at] == b[at] then 1 else 0) + 2 * m) / 2 == m;
      EqMaskBits(a, b, at + 1, n - 1, k - 1);
    }
  }

  lemma {:induction false} EqMaskPast(a: Header, b: Header, at: nat, n: nat, k: nat)
    requires at + n <= 64 && k >= n
    ensures !BitAt(EqMask(a, b, at, n), k)
    decreases n
  {
    if n == 0 {
      ZeroBits(k);
    } else {
      var m := EqMask(a, b, at + 1, n - 1);
      assert ((if a[at] == b[at] then 1 else 0) + 2 * m) / 2 == m;
      EqMaskPast(a, b, at + 1, n - 1, k - 1);
    }
  }

  /** The don't-care masks, one bit per byte of each half of the header. */
  predicate DontCare(i: nat)
    requires i < 64
  {
    if i < 32 then BitAt(CLIENTDC1, i) else BitAt(CLIENTDC2, i - 32)
  }

  /** Which bytes they are: the counter byte 15 and IP length, id and flags up to the TTL in
      16..22, the IP checksum, the acknowledgement number, the window, checksum and urgent
      pointer, and the last two bytes. */
  lemma DontCareBytes(i: nat)
    requires i < 64
    ensures DontCare(i) <==> 15 <= i <= 22 || 24 <= i <= 25 || 42 <= i <= 45 || 48 <= i <= 53 || 62 <= i <= 63
  {
    hide BitAt;
    assert Pow2(2) == 4 && Pow2(4) == 0x10 && Pow2(6) == 0x40 && Pow2(8) == 0x100;
    assert Pow2(9) == 0x200 && Pow2(10) == 0x400 && Pow2(14) == 0x4000 && Pow2(15) == 0x8000;
    if i < 32 {
      JoinBits(0x6FF, 0, 15, i);
      ZeroBits(i);
      if i >= 15 {
        JoinBits(3, 0xFF, 9, i - 15);
        OnesBits(8, i - 15);
        if i >= 24 { OnesBits(2, i - 24); }
      }
    } else {
      var k := i - 32;
      JoinBits(0x300FCF, 0, 10, k);
      ZeroBits(k);
      if k >= 10 {
        JoinBits(0xC03F, 0xF, 6, k - 10);
        OnesBits(4, k - 10);
        if k >= 16 {
          JoinBits(3, 0x3F, 14, k - 16);
          OnesBits(6, k - 16);
          if k >= 30 { OnesBits(2, k - 30); }
        }
      }
    }
  }

  predicate Agree(src: Header, pred: Header, i: nat)
    requires i < 64
  {
    DontCare(i) || src[i] == pred[i]
  }

  /** The first byte on which the headers differ where it matters, or 64. */
  function FirstDiff(src: Header, pred: Header, from: nat): (i: nat)
    requires from <= 64
    ensures from <= i <= 64
    ensures i < 64 ==> !Agree(src, pred, i)
    ensures forall k | from <= k < i :: Agree(src, pred, k)
    decreases 64 - from
  {
    if from == 64 then 64
    else if Agree(src, pred, from) then FirstDiff(src, pred, from + 1)
    else from
  }

  /** One half of the compare, as computed in eax or ecx: the low 16 lanes, the don't-care mask
      or-ed in, and the high 16 lanes shifted into the upper half of the register. */
  function HalfMask(src: Header, pred: Header, at: nat, dc: Word): nat
    requires at <= 32
  {
    Or(Or(EqMask(src, pred, at, 16), dc), EqMask(src, pred, at + 16, 16) * 0x1_0000)
  }

  lemma HalfMaskBits(src: Header, pred: Header, at: nat, dc: Word, k: nat)
    requires at <= 32 && k < 32
    ensures BitAt(HalfMask(src, pred, at, dc), k) <==> BitAt(dc, k) || src[at + k] == pred[at + k]
  {
    hide Or, BitAt, EqMask, Pow2;
    var lo, hi := EqMask(src, pred, at, 16), EqMask(src, pred, at + 16, 16);
    Pow2Of32();
    OrBits(Or(lo, dc), hi * 0x1_0000, k);
    OrBits(lo, dc, k);
    ShiftBits(hi, 16, k);
    if k < 16 {
      EqMaskBits(src, pred, at, 16, k);
    } else {
      EqMaskPast(src, pred, at, 16, k);
      EqMaskBits(src, pred, at + 16, 16, k - 16);
    }
  }

  lemma {:induction false} OrBelow(a: nat, b: nat, n: nat)
    requires a < Pow2(n) && b < Pow2(n)
    ensures Or(a, b) < Pow2(n)
  {
    if n > 0 { OrBelow(a / 2, b / 2, n - 1); }
  }

  lemma HalfMaskIsWord(src: Header, pred: Header, at: nat, dc: Word)
    requires at <= 32
    ensures HalfMask(src, pred, at, dc) < TWO32
  {
    var lo, hi := EqMask(src, pred, at, 16), EqMask(src, pred, at + 16, 16);
    Pow2Of32();
    OrBelow(lo, dc, 32);
    hide Or, EqMask, Pow2;
    OrBelow(Or(lo, dc), hi * 0x1_0000, 32);
  }

  lemma FirstDiffIs(src: Header, pred: Header, i: nat)
    requires i <= 64 && (i < 64 ==> !Agree(src, pred, i))
    requires forall k: nat | k < i :: Agree(src, pred, k)
    ensures FirstDiff(src, pred, 0) == i
  {
    hide Agree;
    var d := FirstDiff(src, pred, 0);
    assert !(d < i);
    assert !(i < d);
  }

  /** All 32 bytes of a half agree just when its mask is all ones ... */
  lemma HalfAgrees(src: Header, pred: Header, at: nat, dc: Word)
    requires (at == 0 && dc == CLIENTDC1) || (at == 32 && dc == CLIENTDC2)
    ensures HalfMask(src, pred, at, dc) <= TWO32 - 1
    ensures HalfMask(src, pred, at, dc) == TWO32 - 1 <==> forall k: nat | at <= k < at + 32 :: Agree(src, pred, k)
  {
    hide HalfMask, BitAt;
    var m := HalfMask(src, pred, at, dc);
    HalfMaskIsWord(src, pred, at, dc);
    Pow2Of32();
    forall k: nat | k < 32 ensures BitAt(m, k) <==> Agree(src, pred, at + k) {
      HalfMaskBits(src, pred, at, dc, k);
    }
    if m == TWO32 - 1 {
      forall k: nat | at <= k < at + 32 ensures Agree(src, pred, k) {
        OnesBits(32, k - at);
        assert BitAt(m, k - at);
      }
    }
    if forall k: nat | at <= k < at + 32 :: Agree(src, pred, k) {
      forall k: nat | k < 32 ensures BitAt(m, k) { assert Agree(src, pred, at + k); }
      AllOnes(m, 32);
    }
  }

  /** ... and otherwise the lowest clear bit is the first byte of the half that disagrees. */
  lemma HalfDisagrees(src: Header, pred: Header, at: nat, dc: Word)
    requires (at == 0 && dc == CLIENTDC1) || (at == 32 && dc == CLIENTDC2)
    requires HalfMask(src, pred, at, dc) < TWO32 - 1
    ensures var i := Bsf(TWO32 - 1 - HalfMask(src, pred, at, dc));
            i < 32 && !Agree(src, pred, at + i) && forall k: nat | at <= k < at + i :: Agree(src, pred, k)
  {
    hide HalfMask, BitAt, Bsf;
    var m := HalfMask(src, pred, at, dc);
    var i := Bsf(TWO32 - 1 - m);
    Pow2Of32();
    LowestBelow(TWO32 - 1 - m, i, 32);
    NotBits(m, 32, i);
    HalfMaskBits(src, pred, at, dc, i);
    forall k: nat | at <= k < at + i ensures Agree(src, pred, k) {
      NotBits(m, 32, k - at);
      HalfMaskBits(src, pred, at, dc, k - at);
      assert !BitAt(TWO32 - 1 - m, k - at);
    }
  }

  lemma {:induction false} LowestBelow(a: nat, i: nat, n: nat)
    requires a < Pow2(n) && BitAt(a, i)
    ensures i < n
    decreases n
  {
    if n == 0 {
      ZeroBits(i);
    } else if i > 0 {
      LowestBelow(a / 2, i - 1, n - 1);
    }
  }

  lemma AndAllOnes(a: Word, b: Word)
    ensures And(a, b) == TWO32 - 1 <==> a == TWO32 - 1 && b == TWO32 - 1
    ensures And(a, b) < TWO32
  {
    if a == TWO32 - 1 && b == TWO32 - 1 {
      Pow2Of32();
      AndLowMask(a, 32);
      LowOfSmall(a, 32);
    }
  }

  /** What the two masks eax and ecx say about the headers. */
  lemma CompareIs(src: Header, pred: Header)
    ensures var e, c := HalfMask(src, pred, 0, CLIENTDC1), HalfMask(src, pred, 32, CLIENTDC2);
            var d := FirstDiff(src, pred, 0);
            && e < TWO32 && c < TWO32 && And(e, c) < TWO32
            && (And(e, c) == TWO32 - 1 <==> e == TWO32 - 1 && c == TWO32 - 1)
            && (And(e, c) == TWO32 - 1 <==> d == 64)
            && (e < TWO32 - 1 ==> d == Bsf(TWO32 - 1 - e))
            && (e == TWO32 - 1 && c < TWO32 - 1 ==> d == Bsf(TWO32 - 1 - c) + 32)
  {
    hide HalfMask, And, Bsf, Agree, FirstDiff;
    var e, c := HalfMask(src, pred, 0, CLIENTDC1), HalfMask(src, pred, 32, CLIENTDC2);
    HalfAgrees(src, pred, 0, CLIENTDC1);
    HalfAgrees(src, pred, 32, CLIENTDC2);
    AndAllOnes(e, c);
    if e < TWO32 - 1 {
      HalfDisagrees(src, pred, 0, CLIENTDC1);
      FirstDiffIs(src, pred, Bsf(TWO32 - 1 - e));
      FirstDiffBelow(src, pred, Bsf(TWO32 - 1 - e));
    } else if c < TWO32 - 1 {
      HalfDisagrees(src, pred, 32, CLIENTDC2);
      FirstDiffIs(src, pred, Bsf(TWO32 - 1 - c) + 32);
      FirstDiffBelow(src, pred, Bsf(TWO32 - 1 - c) + 32);
    } else {
      FirstDiffIs(src, pred, 64);
    }
  }

  lemma FirstDiffBelow(src: Header, pred: Header, i: nat)
    requires i < 64 && FirstDiff(src, pred, 0) == i
    ensures FirstDiff(src, pred, 0) < 64
  {
  }

  // ---------------------------------------------------------------- the whole routine

  /** The IP length less 40, in 32 bits: the TCP payload of a segment without options. */
  function Payload(src: Header): Word { Wrap(Net16(src, 16) - IPOVERHEAD) }

  /** The acknowledgement number and window are taken over unless the predicted number is
      greater as a signed word. */
  function TakeAck(src: Header, pred: Header): Header {
    if Signed(Net32(pred, 42)) > Signed(Net32(src, 42)) then pred
    else Store32(Store16(pred, 48, Load16(src, 48)), 42, Load32(src, 42))
  }

  /** The result for headers that first differ at byte d. */
  function Rejected(src: Header, d: nat): Word
    requires d < 64
  {
    (d + 1) * 0x1_0000 + (Net16(src, 16) - IPOVERHEAD) % 0x1_0000
  }

  /** A data segment of n bytes: the next sequence number is stored and the counter counts
      down; when it expires it is reloaded and the ACK bit goes into the result. */
  function Paced(p: Header, n: Word, next: Word): (Word, Header) {
    var q := Store32(p, 38, BSwap(next));
    var left := (p[15] as int - 1) % 0x100;
    if left == 0 then (Wrap(Or(n, ACKMASK)), q[15 := p[22]]) else (n, q[15 := left])
  }

  /** The result for headers that agree, and what it leaves in the predicted header. */
  function Accepted(src: Header, pred: Header): (Word, Header) {
    var p := TakeAck(src, pred);
    var n := Payload(src);
    if n == 0 then (0, p) else Paced(p, n, Wrap(Net32(src, 38) + n))
  }

  /** What a call returns and what it leaves in the predicted header. */
  function Validate(src: Header, pred: Header): (Word, Header) {
    var d := FirstDiff(src, pred, 0);
    if d < 64 then (Rejected(src, d), pred) else Accepted(src, pred)
  }

  /** client_validate_header, instruction by instruction. Registers are 32-bit words; rdi is
      the predicted header, updated in place, src the received one. */
  method ClientValidateHeader(src: Header, rdi: array<Byte>) returns (eax: Word)
    requires rdi.Length == 64
    modifies rdi
    ensures rdi[..] == Validate(src, old(rdi[..])).1
    ensures eax == Validate(src, old(rdi[..])).0
  {
    hide FirstDiff, And, Bsf, HalfMask, Accepted, Rejected;
    CompareIs(src, rdi[..]);
    var ebx: Word, ecx: Word := HalfMask(src, rdi[..], 0, CLIENTDC1), HalfMask(src, rdi[..], 32, CLIENTDC2);
    eax := And(ebx, ecx);
    assert Wrap(eax + 1) == 0 <==> eax == TWO32 - 1;
    eax := Wrap(eax + 1);
    if eax != 0 {
      eax := Mismatch(src, ebx, ecx);
    } else {
      eax := Match(src, rdi);
    }
  }

  /** From the label mismatch2: the 1-based index of the first byte that disagrees. */
  method Mismatch(src: Header, ebx: Word, ecx: Word) returns (eax: Word)
    requires ebx != TWO32 - 1 || ecx != TWO32 - 1
    requires (if ebx != TWO32 - 1 then Bsf(TWO32 - 1 - ebx) else Bsf(TWO32 - 1 - ecx) + 32) < 64
    ensures eax == Rejected(src, if ebx != TWO32 - 1 then Bsf(TWO32 - 1 - ebx) else Bsf(TWO32 - 1 - ecx) + 32)
  {
    hide Bsf, Load16, Net16, Rol8;
    LengthIs(src);
    var dx := Rol8(Load16(src, 16));
    if Not32(ebx) != 0 {
      eax := Bsf(Not32(ebx)) + 1;
    } else {
      eax := Bsf(Not32(ecx)) + 33;
    }
    dx := (dx - IPOVERHEAD) % 0x1_0000;
    eax := eax * 0x1_0000 + dx;
  }

  /** The path without a jump to mismatch2: takes acknowledgement and window over, then from
      the label getlength predicts the next sequence number and paces the ACKs. */
  method Match(src: Header, rdi: array<Byte>) returns (eax: Word)
    requires rdi.Length == 64
    modifies rdi
    ensures rdi[..] == Accepted(src, old(rdi[..])).1
    ensures eax == Accepted(src, old(rdi[..])).0
  {
    hide Or, Signed, BSwap, Load16, Load32, Net16, Net32, ByteOf, Rol8;
    ghost var pred: Header := rdi[..];
    BytesOfLoad(src, 38);
    BytesOfLoad(src, 42);
    BytesOfLoad(pred, 42);
    LengthIs(src);
    eax := Load16(src, 16);
    var ecx := Load32(src, 38);
    var edx := Load32(src, 42);
    var bx := Load16(src, 48);
    eax := Rol8(eax);
    ecx := BSwap(ecx);
    var esi := Load32(rdi[..], 42);
    edx := BSwap(edx);
    esi := BSwap(esi);
    if !(Signed(esi) > Signed(edx)) {
      edx := BSwap(edx);
      PutWord16(rdi, 48, bx);
      PutWord32(rdi, 42, edx);
    }
    assert rdi[..] == TakeAck(src, pred);
    eax := Wrap(eax - IPOVERHEAD);
    if eax != 0 {
      ecx := Wrap(ecx + eax);
      eax := Pace(rdi, eax, ecx);
    }
  }

  /** The data branch of getlength. */
  method Pace(rdi: array<Byte>, n: Word, next: Word) returns (eax: Word)
    requires rdi.Length == 64
    modifies rdi
    ensures rdi[..] == Paced(old(rdi[..]), n, next).1
    ensures eax == Paced(old(rdi[..]), n, next).0
  {
    hide Or, BSwap, ByteOf;
    eax := n;
    ghost var p: Header := rdi[..];
    var dl := rdi[22];
    var ecx := BSwap(next);
    var left := (rdi[15] as int - 1) % 0x100;
    StoreApart(p, 38, ecx, 15, left);
    StoreKeeps(p, 38, ecx, 22);
    rdi[15] := left;
    assert rdi[..] == p[15 := left];
    PutWord32(rdi, 38, ecx);
    if left == 0 {
      rdi[15] := dl;
      eax := Wrap(Or(eax, ACKMASK));
    }
  }

  method PutWord16(rdi: array<Byte>, i: nat, w: Word)
    requires rdi.Length == 64 && i + 2 <= 64
    modifies rdi
    ensures rdi[..] == Store16(old(rdi[..]), i, w)
  {
    rdi[i] := ByteOf(w, 0);
    rdi[i + 1] := ByteOf(w, 1);
  }

  method PutWord32(rdi: array<Byte>, i: nat, w: Word)
    requires rdi.Length == 64 && i + 4 <= 64
    modifies rdi
    ensures rdi[..] == Store32(old(rdi[..]), i, w)
  {
    hide ByteOf;
    rdi[i] := ByteOf(w, 0);
    rdi[i + 1] := ByteOf(w, 1);
    rdi[i + 2] := ByteOf(w, 2);
    rdi[i + 3] := ByteOf(w, 3);
  }

  lemma LengthIs(src: Header)
    ensures Rol8(Load16(src, 16)) == Net16(src, 16)
  {
  }

  lemma StoreApart(h: Header, i: nat, w: Word, k: nat, b: Byte)
    requires i + 4 <= 64 && k < i
    ensures Store32(h[k := b], i, w) == Store32(h, i, w)[k := b]
    ensures Store32(h, i, w)[k] == h[k]
  {
    hide ByteOf;
  }

  lemma StoreKeeps(h: Header, i: nat, w: Word, k: nat)
    requires i + 4 <= 64 && k < 64 && (k < i || k >= i + 4)
    ensures Store32(h, i, w)[k] == h[k]
  {
    hide ByteOf;
  }

  // ---------------------------------------------------------------- what callers rely on

  const MISSMASK: Word := 0x7FFF0000

  /** The field that the callers mask out of a result: bits 16 to 30. */
  lemma MissField(result: Word)
    ensures And(result, MISSMASK) == result / 0x1_0000 % 0x8000 * 0x1_0000
  {
    hide Double, And, Low, Shr;
    Pow2Of32();
    assert Pow2(16) == 2 * Pow2(15);
    DoubleIsProduct(0x7FFF, 16);
    AndDouble(result, 0x7FFF, 16);
    ShrIsQuotient(result, 16);
    AndLowMask(Shr(result, 16), 15);
    LowIsRemainder(Shr(result, 16), 15);
    DoubleIsProduct(result / 0x1_0000 % 0x8000, 16);
  }

  /** A call accepts just when every byte outside the two don't-care masks agrees. If it does
      not, the prediction is unchanged, the miss field holds the 1-based index of the first
      byte that matters and differs, and the low half the IP length less 40. */
  lemma ValidateMismatch(src: Header, pred: Header)
    ensures var d := FirstDiff(src, pred, 0);
            && (d == 64 <==> forall i: nat | i < 64 && !DontCare(i) :: src[i] == pred[i])
            && (d < 64 ==>
                  && !DontCare(d) && src[d] != pred[d]
                  && (forall i: nat | i < d && !DontCare(i) :: src[i] == pred[i])
                  && Validate(src, pred).1 == pred
                  && And(Validate(src, pred).0, MISSMASK) == (d + 1) * 0x1_0000
                  && Validate(src, pred).0 == (d + 1) * 0x1_0000 + (Net16(src, 16) - 40) % 0x1_0000)
  {
    hide DontCare, Net16, And;
    var d := FirstDiff(src, pred, 0);
    MissField(Validate(src, pred).0);
    assert forall i: nat | i < d && !DontCare(i) :: Agree(src, pred, i);
  }

  /** The callers' test of the miss field tells the two apart if and only if the IP length of
      the accepted segment is at least 40; a shorter one underflows into the field. */
  lemma MissTellsAccepted(src: Header, pred: Header)
    requires FirstDiff(src, pred, 0) == 64
    ensures And(Validate(src, pred).0, MISSMASK) == 0 <==> Net16(src, 16) >= IPOVERHEAD
  {
    hide FirstDiff, Net16, TakeAck, Store32, Or, And;
    MissField(Validate(src, pred).0);
    var n := Payload(src);
    if n != 0 {
      AckBit(n);
    }
  }

  /** Or-ing ACKMASK in sets the top bit and nothing else. */
  lemma AckBit(n: Word)
    ensures Or(n, ACKMASK) < TWO32
    ensures Or(n, ACKMASK) == if n >= ACKMASK then n else n + ACKMASK
  {
    Pow2Of32();
    OrBelow(n, ACKMASK, 32);
    if n < ACKMASK {
      LowOfSmall(n, 31);
      LowOfSmall(n, 32);
      OrSetsBit(n, 31);
    } else {
      var m := n - ACKMASK;
      LowOfSmall(m, 31);
      LowOfSmall(m, 32);
      OrSetsBit(m, 31);
      OrAgain(m, ACKMASK);
    }
  }

  lemma {:induction false} OrAgain(m: nat, b: nat)
    ensures Or(Or(m, b), b) == Or(m, b)
    decreases m + b
  {
    hide Or;
    OrHalves(m, b);
    OrHalves(Or(m, b), b);
    if m + b > 0 {
      OrAgain(m / 2, b / 2);
    }
  }

  // ---------------------------------------------------------------- an accepted segment

  /** The byte of the predicted header after an accepted segment, outside the sequence number and
      the counter byte: acknowledgement number and window are the segment's, unless the predicted
      number is greater as a signed word; every other byte is kept. */
  lemma AcceptedByte(src: Header, pred: Header, i: nat)
    requires FirstDiff(src, pred, 0) == 64
    requires i < 64 && i != 15 && !(38 <= i <= 41)
    ensures Validate(src, pred).1[i]
            == if (42 <= i <= 45 || 48 <= i <= 49) && Signed(Net32(pred, 42)) <= Signed(Net32(src, 42)) then src[i]
               else pred[i]
  {
    hide FirstDiff, TakeAck, Signed, Net32, Net16, Paced, Payload;
    var p := TakeAck(src, pred);
    var n := Payload(src);
    TakenByte(src, pred, i);
    if n != 0 { PacedByte(p, n, Wrap(Net32(src, 38) + n), i); }
  }

  lemma TakenByte(src: Header, pred: Header, i: nat)
    requires i < 64
    ensures TakeAck(src, pred)[i]
            == if (42 <= i <= 45 || 48 <= i <= 49) && Signed(Net32(pred, 42)) <= Signed(Net32(src, 42)) then src[i]
               else pred[i]
  {
    hide ByteOf, Signed, Net32, Load32, Load16;
    BytesOfLoad(src, 42);
    BytesOfShort(src, 48);
  }

  lemma BytesOfShort(h: Header, i: nat)
    requires i + 2 <= 64
    ensures ByteOf(Load16(h, i), 0) == h[i] && ByteOf(Load16(h, i), 1) == h[i + 1]
  {
    BytesUnique(Load16(h, i), h[i], h[i + 1], 0, 0);
  }

  lemma PacedByte(p: Header, n: Word, next: Word, i: nat)
    requires i < 64 && i != 15 && !(38 <= i <= 41)
    ensures Paced(p, n, next).1[i] == p[i]
  {
    hide Or, BSwap, ByteOf;
  }

  /** What an accepted segment of any IP length does besides: the sequence number goes on by the
      length less 40, in 32 bits, and unless that is 0 the counter byte counts down from its old
      value. At 0 it is reloaded from byte 22, and only then the top bit of the result is set. */
  lemma AcceptedRest(src: Header, pred: Header)
    requires FirstDiff(src, pred, 0) == 64
    ensures var (result, q) := Validate(src, pred);
            var n := (Net16(src, 16) - 40) % 0x1_0000_0000;
            && Net32(q, 38) == (Net32(pred, 38) + n) % 0x1_0000_0000
            && if n == 0 then result == 0 && q[15] == pred[15]
               else if pred[15] == 1 then
                 result == (if n < 0x8000_0000 then n + 0x8000_0000 else n) && q[15] == pred[22]
               else result == n && q[15] == (if pred[15] == 0 then 255 else pred[15] - 1)
  {
    hide FirstDiff, TakeAck, Paced, Net32, Net16;
    TakeAckKeeps(src, pred);
    SameNumber(src, pred);
    var n := Payload(src);
    if n > 0 { PacedRest(TakeAck(src, pred), n, Wrap(Net32(src, 38) + n)); }
  }

  lemma PacedRest(p: Header, n: Word, next: Word)
    ensures var (result, q) := Paced(p, n, next);
            && Net32(q, 38) == next
            && if p[15] == 1 then result == (if n < ACKMASK then n + ACKMASK else n) && q[15] == p[22]
               else result == n && q[15] == (if p[15] == 0 then 255 else p[15] - 1)
  {
    hide Or, BSwap;
    StoreSwapped(p, 38, next);
    StoreKeeps(p, 38, BSwap(next), 22);
    AckBit(n);
    var q := Store32(p, 38, BSwap(next));
    hide Store32, Net32;
    NumberKept(q, 15, (p[15] as int - 1) % 0x100);
    NumberKept(q, 15, p[22]);
  }

  // ---------------------------------------------------------------- runs of accepted segments

  /** The predicted header after a run of segments, and the results of the calls. */
  function Run(pred: Header, segs: seq<Header>): (r: (seq<Word>, Header))
    ensures |r.0| == |segs|
  {
    if segs == [] then ([], pred)
    else
      var front := Run(pred, segs[..|segs| - 1]);
      var last := Validate(segs[|segs| - 1], front.1);
      (front.0 + [last.0], last.1)
  }

  /** Every segment of the run is accepted, and is at least as long as its headers. */
  ghost predicate AllAccepted(pred: Header, segs: seq<Header>) {
    forall i | 0 <= i < |segs| ::
      FirstDiff(segs[i], Run(pred, segs[..i]).1, 0) == 64 && Net16(segs[i], 16) >= IPOVERHEAD
  }

  function PayloadSum(segs: seq<Header>): nat {
    if segs == [] then 0 else PayloadSum(segs[..|segs| - 1]) + Payload(segs[|segs| - 1])
  }

  /** The number of segments that carry data. */
  function DataCount(segs: seq<Header>): nat {
    if segs == [] then 0
    else DataCount(segs[..|segs| - 1]) + if Payload(segs[|segs| - 1]) != 0 then 1 else 0
  }

  /** How many steps a byte counter takes to reach zero: a zero byte wraps around first. */
  function Period(b: Byte): (n: nat)
    ensures 0 < n <= 256
  {
    if b == 0 then 256 else b
  }

  /** What is left of a countdown of c steps, restarted at r, after k steps. */
  function Remaining(c: nat, r: nat, k: nat): (n: nat)
    requires c > 0 && r > 0
    ensures n > 0
  {
    if k == 0 then c
    else if Remaining(c, r, k - 1) == 1 then r
    else Remaining(c, r, k - 1) - 1
  }

  /** The countdown expires at step c, and from then on every r steps. */
  lemma {:induction false} ExpiresAt(c: nat, r: nat, k: nat)
    requires c > 0 && r > 0 && k > 0
    ensures Remaining(c, r, k - 1) == 1 <==> k >= c && (k - c) % r == 0
    ensures k < c ==> Remaining(c, r, k) == c - k
    ensures k >= c ==> Remaining(c, r, k) == r - (k - c) % r
  {
    if k > 1 {
      ExpiresAt(c, r, k - 1);
    }
    if k >= c {
      NextRemainder(k - c, r);
    }
  }

  lemma NextRemainder(a: nat, r: nat)
    requires r > 0
    ensures a > 0 ==> a % r == if (a - 1) % r == r - 1 then 0 else (a - 1) % r + 1
    ensures a == 0 ==> a % r == 0
  {
    if a > 0 {
      var q, m := (a - 1) / r, (a - 1) % r;
      if m == r - 1 {
        assert (q + 1) * r == q * r + r;
        QuotientUnique(r, q + 1, 0, a / r, a % r);
      } else {
        QuotientUnique(r, q, m + 1, a / r, a % r);
      }
    }
  }

  /** One accepted segment: what happens to the predicted number, the counter byte 15 and the
      reload byte 22. */
  lemma AcceptedStep(src: Header, pred: Header)
    requires FirstDiff(src, pred, 0) == 64 && Net16(src, 16) >= IPOVERHEAD
    ensures var r := Validate(src, pred);
            var n := Net16(src, 16) - IPOVERHEAD;
            && Payload(src) == n
            && Net32(r.1, 38) == Wrap(Net32(pred, 38) + n)
            && r.1[22] == pred[22]
            && (n == 0 ==> r.0 == 0 && r.1[15] == pred[15])
            && (n > 0 ==>
                  if Period(pred[15]) == 1 then r.0 == n + ACKMASK && r.1[15] == pred[22]
                  else r.0 == n && Period(r.1[15]) == Period(pred[15]) - 1)
  {
    hide FirstDiff, TakeAck, Paced, Net32, Net16;
    TakeAckKeeps(src, pred);
    SameNumber(src, pred);
    var n := Payload(src);
    if n > 0 {
      PacedStep(TakeAck(src, pred), n, Wrap(Net32(src, 38) + n));
    }
  }

  lemma PacedStep(p: Header, n: Word, next: Word)
    requires 0 < n < ACKMASK
    ensures var r := Paced(p, n, next);
            && Net32(r.1, 38) == next && r.1[22] == p[22]
            && (if Period(p[15]) == 1 then r.0 == n + ACKMASK && r.1[15] == p[22]
                else r.0 == n && Period(r.1[15]) == Period(p[15]) - 1)
  {
    hide Or, BSwap;
    StoreSwapped(p, 38, next);
    StoreKeeps(p, 38, BSwap(next), 22);
    AckBit(n);
    var q := Store32(p, 38, BSwap(next));
    hide Store32, Net32;
    NumberKept(q, 15, (p[15] as int - 1) % 0x100);
    NumberKept(q, 15, p[22]);
  }

  lemma TakeAckKeeps(src: Header, pred: Header)
    ensures var p := TakeAck(src, pred); p[15] == pred[15] && p[22] == pred[22] && Net32(p, 38) == Net32(pred, 38)
  {
    hide ByteOf, Signed, Load16, Load32;
  }

  lemma NumberKept(h: Header, k: nat, b: Byte)
    requires k < 38
    ensures Net32(h[k := b], 38) == Net32(h, 38)
  {
  }

  /** The sequence number is compared: on acceptance it is the predicted one. */
  lemma SameNumber(src: Header, pred: Header)
    requires FirstDiff(src, pred, 0) == 64
    ensures Net32(src, 38) == Net32(pred, 38)
  {
    ValidateMismatch(src, pred);
    DontCareBytes(38);
    DontCareBytes(39);
    DontCareBytes(40);
    DontCareBytes(41);
  }

  /** Over any run of accepted segments the predicted sequence number is the start plus all
      payload bytes, modulo 2^32; the counter byte counts data segments. */
  lemma {:induction false} RunState(pred: Header, segs: seq<Header>)
    requires AllAccepted(pred, segs)
    ensures var p := Run(pred, segs).1;
            && Net32(p, 38) == Wrap(Net32(pred, 38) + PayloadSum(segs))
            && p[22] == pred[22]
            && Period(p[15]) == Remaining(Period(pred[15]), Period(pred[22]), DataCount(segs))
  {
    hide Net32, Validate, FirstDiff, Payload, Net16;
    if segs != [] {
      var front, seg := segs[..|segs| - 1], segs[|segs| - 1];
      FrontAccepted(pred, segs);
      RunState(pred, front);
      AcceptedStep(seg, Run(pred, front).1);
    }
  }

  lemma FrontAccepted(pred: Header, segs: seq<Header>)
    requires AllAccepted(pred, segs) && segs != []
    ensures AllAccepted(pred, segs[..|segs| - 1])
    ensures var front, seg := segs[..|segs| - 1], segs[|segs| - 1];
            FirstDiff(seg, Run(pred, front).1, 0) == 64 && Net16(seg, 16) >= IPOVERHEAD
  {
    hide Run, FirstDiff, Net16;
    var front := segs[..|segs| - 1];
    forall i | 0 <= i < |front|
      ensures FirstDiff(front[i], Run(pred, front[..i]).1, 0) == 64 && Net16(front[i], 16) >= IPOVERHEAD
    {
      assert front[..i] == segs[..i] && front[i] == segs[i];
    }
  }

  /** The ACK bit is raised by the data segment at which the counter expires, and after it by
      every reload-value-th data segment, and by no other; a segment without data returns 0. */
  lemma AckPacing(pred: Header, segs: seq<Header>, i: nat)
    requires AllAccepted(pred, segs) && i < |segs|
    ensures var n := Payload(segs[i]);
            var result := Validate(segs[i], Run(pred, segs[..i]).1).0;
            var k := DataCount(segs[..i + 1]);
            var c, r := Period(pred[15]), Period(pred[22]);
            if n == 0 then result == 0
            else if k >= c && (k - c) % r == 0 then result == n + ACKMASK
            else result == n
  {
    hide Net32, Validate, FirstDiff, Payload, Net16, Run;
    PrefixAccepted(pred, segs, i);
    RunState(pred, segs[..i]);
    AcceptedStep(segs[i], Run(pred, segs[..i]).1);
    var k := DataCount(segs[..i + 1]);
    assert segs[..i + 1][..i] == segs[..i];
    if Payload(segs[i]) != 0 {
      ExpiresAt(Period(pred[15]), Period(pred[22]), k);
    }
  }

  lemma PrefixAccepted(pred: Header, segs: seq<Header>, i: nat)
    requires AllAccepted(pred, segs) && i <= |segs|
    ensures AllAccepted(pred, segs[..i])
  {
    hide Run, FirstDiff, Net16;
    var front := segs[..i];
    forall j | 0 <= j < i
      ensures FirstDiff(front[j], Run(pred, front[..j]).1, 0) == 64 && Net16(front[j], 16) >= IPOVERHEAD
    {
      assert front[..j] == segs[..j] && front[j] == segs[j];
    }
  }
}
