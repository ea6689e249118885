/** libnetlink.c: building and parsing the attributes of a netlink message (section 2.2 of RFC
    3549), on a little-endian host. */
module Netlink {
  import opened Words

  type Memory = seq<Byte>

  const RTA_HEADER := 4

  datatype Option<T> = None | Some(value: T)
  datatype Attr = Attr(kind: int, payload: seq<Byte>)

  /** NLMSG_ALIGN and RTA_ALIGN: up to the next multiple of 4. */
  function Align(n: nat): (r: nat)
    ensures r % 4 == 0 && n <= r < n + 4
  {
    (n + 3) / 4 * 4
  }

  /** The macros compute it with a mask on 32 bits. */
  lemma AlignIsMask(n: nat)
    requires n + 3 < TWO32
    ensures Align(n) == And(n + 3, TWO32 - 4)
  {
    Pow2Of32();
    assert Pow2(2) == 4;
    AndHighMask(n + 3, 2, 32);
    LowIsRemainder(n + 3, 2);
  }

  // ---------------------------------------------------------------- an attribute in memory

  function Half(m: Memory, at: nat): nat
    requires at + 2 <= |m|
  {
    m[at] as int + m[at + 1] as int * 0x100
  }

  function LenAt(m: Memory, at: nat): nat
    requires at + RTA_HEADER <= |m|
  {
    Half(m, at)
  }

  function TypeAt(m: Memory, at: nat): nat
    requires at + RTA_HEADER <= |m|
  {
    Half(m, at + 2)
  }

  /** What a writer stores at an offset: 16-bit length and type, then the payload. */
  function Put(m: Memory, at: nat, kind: int, data: seq<Byte>): (r: Memory)
    requires at + RTA_HEADER + |data| <= |m|
    ensures |r| == |m|
  {
    var len := RTA_HEADER + |data|;
    m[..at] + [len % 0x100, len / 0x100 % 0x100, kind % 0x100, kind / 0x100 % 0x100]
    + data + m[at + len..]
  }

  lemma PutReads(m: Memory, at: nat, kind: int, data: seq<Byte>)
    requires at + RTA_HEADER + |data| <= |m|
    ensures var r := Put(m, at, kind, data);
      && LenAt(r, at) == (RTA_HEADER + |data|) % 0x1_0000
      && TypeAt(r, at) == kind % 0x1_0000
      && r[at + RTA_HEADER..at + RTA_HEADER + |data|] == data
  {
    var r := Put(m, at, kind, data);
    var len := RTA_HEADER + |data|;
    assert r[at] == len % 0x100 && r[at + 1] == len / 0x100 % 0x100;
    assert r[at + 2] == kind % 0x100 && r[at + 3] == kind / 0x100 % 0x100;
    TwoBytes(len);
    TwoBytes(kind);
  }

  lemma TwoBytes(x: int)
    ensures x % 0x100 + 0x100 * (x / 0x100 % 0x100) == x % 0x1_0000
  {
  }

  // ---------------------------------------------------------------- building

  /** The memory of a message and its nlmsg_len. */
  datatype Msg = Msg(mem: Memory, len: nat)

  /** addattr_l */
  function AddL(m: Msg, maxlen: nat, kind: int, data: seq<Byte>): (r: Msg)
    requires maxlen <= |m.mem|
    ensures |r.mem| == |m.mem|
  {
    var size := Align(RTA_HEADER + |data|);
    if Align(m.len) + size > maxlen then m
    else Msg(Put(m.mem, Align(m.len), kind, data), Align(m.len) + size)
  }

  function Bytes32(x: Word): (d: seq<Byte>)
    ensures |d| == 4
  {
    [x % 0x100, x / 0x100 % 0x100, x / 0x1_0000 % 0x100, x / 0x100_0000]
  }

  /** They are the number's, lowest first. */
  lemma Bytes32Are(x: Word)
    ensures var d := Bytes32(x);
            x == d[0] as int + 0x100 * (d[1] as int) + 0x1_0000 * (d[2] as int) + 0x100_0000 * (d[3] as int)
  {
    var a: int := x / 0x100;
    var b := a / 0x100;
    assert a == 0x100 * b + a % 0x100 && b == 0x100 * (b / 0x100) + b % 0x100;
  }

  /** addraw_l: data padded with zero bytes. */
  function AddRaw(m: Msg, maxlen: nat, data: seq<Byte>): (r: Msg)
    requires maxlen <= |m.mem|
    ensures |r.mem| == |m.mem|
  {
    var at, size := Align(m.len), Align(|data|);
    if at + size > maxlen then m
    else Msg(m.mem[..at] + data + Zeros(size - |data|) + m.mem[at + size..], at + size)
  }

  function Zeros(n: nat): (z: seq<Byte>)
    ensures |z| == n && forall i | 0 <= i < n :: z[i] == 0
  {
    seq(n, i => 0)
  }

  lemma AlignBehind(at: nat, n: nat)
    requires at % 4 == 0
    ensures Align(at + n) == at + Align(n)
  {
  }

  lemma PutMeans(m: Memory, at: nat, kind: int, data: seq<Byte>)
    requires at + RTA_HEADER + |data| <= |m|
    ensures var (r, end) := (Put(m, at, kind, data), at + 4 + |data|);
            r[at + 4..end] == data && r[..at] == m[..at] && r[end..] == m[end..]
  {
  }

  lemma PutHeader(m: Memory, at: nat, kind: int, data: seq<Byte>)
    requires at + RTA_HEADER + |data| <= |m|
    ensures var r := Put(m, at, kind, data);
            && r[at] as int + 0x100 * (r[at + 1] as int) == (4 + |data|) % 0x1_0000
            && r[at + 2] as int + 0x100 * (r[at + 3] as int) == kind % 0x1_0000
  {
    hide Put;
    PutReads(m, at, kind, data);
  }

  /** What addattr_l writes, byte by byte: at the next multiple of 4 the length and the type, lowest
      byte first, then the data. The length of the message goes on to the next multiple of 4, and
      every other byte is as it was, the padding too. */
  lemma AddLMeans(m: Msg, maxlen: nat, kind: int, data: seq<Byte>)
    requires maxlen <= |m.mem|
    ensures var (at, r) := (Align(m.len), AddL(m, maxlen, kind, data));
            var end := at + 4 + |data|;
            if at + Align(4 + |data|) > maxlen then r == m
            else
              && r.len == Align(end)
              && r.mem[at + 4..end] == data && r.mem[..at] == m.mem[..at] && r.mem[end..] == m.mem[end..]
              && r.mem[at] as int + 0x100 * (r.mem[at + 1] as int) == (4 + |data|) % 0x1_0000
              && r.mem[at + 2] as int + 0x100 * (r.mem[at + 3] as int) == kind % 0x1_0000
  {
    hide Put;
    if Align(m.len) + Align(RTA_HEADER + |data|) <= maxlen {
      PutMeans(m.mem, Align(m.len), kind, data);
      PutHeader(m.mem, Align(m.len), kind, data);
      AlignBehind(Align(m.len), RTA_HEADER + |data|);
    }
  }

  /** What addraw_l writes: at the next multiple of 4 the data, then zeros up to the next one. */
  lemma AddRawMeans(m: Msg, maxlen: nat, data: seq<Byte>)
    requires maxlen <= |m.mem|
    ensures var (at, r) := (Align(m.len), AddRaw(m, maxlen, data));
            var end := at + |data|;
            if at + Align(|data|) > maxlen then r == m
            else
              && r.len == Align(end)
              && forall i | 0 <= i < |m.mem| ::
                   r.mem[i] == if at <= i < end then data[i - at] else if end <= i < r.len then 0 else m.mem[i]
  {
  }

  class Message {
    const buf: array<Byte>
    var nlmsgLen: nat

    constructor (b: array<Byte>, len: nat)
      ensures buf == b && nlmsgLen == len
    {
      buf, nlmsgLen := b, len;
    }

    ghost function Value(): Msg
      reads this, buf
    {
      Msg(buf[..], nlmsgLen)
    }

    method Memcpy(at: nat, data: seq<Byte>)
      requires at + |data| <= buf.Length
      modifies buf
      ensures buf[..] == old(buf[..at]) + data + old(buf[at + |data|..])
    {
      forall i | 0 <= i < |data| { buf[at + i] := data[i]; }
    }

    /** rta_len and rta_type, both 16 bits wide, are assigned from ints. */
    method SetHeader(at: nat, len: nat, kind: int)
      requires at + RTA_HEADER <= buf.Length
      modifies buf
      ensures buf[..] == old(buf[..at])
                         + [len % 0x100, len / 0x100 % 0x100, kind % 0x100, kind / 0x100 % 0x100]
                         + old(buf[at + RTA_HEADER..])
    {
      buf[at], buf[at + 1] := len % 0x100, len / 0x100 % 0x100;
      buf[at + 2], buf[at + 3] := kind % 0x100, kind / 0x100 % 0x100;
    }

    method AddAttrL(maxlen: nat, kind: int, data: seq<Byte>) returns (rc: int)
      requires maxlen <= buf.Length
      modifies this`nlmsgLen, buf
      ensures Value() == AddL(old(Value()), maxlen, kind, data)
      ensures rc == if Align(old(nlmsgLen)) + Align(RTA_HEADER + |data|) > maxlen then -1 else 0
    {
      var len := RTA_HEADER + |data|;
      if Align(nlmsgLen) + Align(len) > maxlen { return -1; }
      var rta := Align(nlmsgLen);
      SetHeader(rta, len, kind);
      Memcpy(rta + RTA_HEADER, data);
      nlmsgLen := Align(nlmsgLen) + Align(len);
      return 0;
    }

    method AddAttr32(maxlen: nat, kind: int, data: Word) returns (rc: int)
      requires maxlen <= buf.Length
      modifies this`nlmsgLen, buf
      ensures Value() == AddL(old(Value()), maxlen, kind, Bytes32(data))
      ensures rc == if Align(old(nlmsgLen)) + 8 > maxlen then -1 else 0
    {
      var len := RTA_HEADER + 4;
      if Align(nlmsgLen) + len > maxlen { return -1; }
      var rta := Align(nlmsgLen);
      SetHeader(rta, len, kind);
      Memcpy(rta + RTA_HEADER, Bytes32(data));
      nlmsgLen := Align(nlmsgLen) + len;
      return 0;
    }

    method AddRawL(maxlen: nat, data: seq<Byte>) returns (rc: int)
      requires maxlen <= buf.Length
      modifies this`nlmsgLen, buf
      ensures Value() == AddRaw(old(Value()), maxlen, data)
      ensures rc == if Align(old(nlmsgLen)) + Align(|data|) > maxlen then -1 else 0
    {
      if Align(nlmsgLen) + Align(|data|) > maxlen { return -1; }
      var tail := Align(nlmsgLen);
      Memcpy(tail, data);
      Memcpy(tail + |data|, Zeros(Align(|data|) - |data|));
      nlmsgLen := Align(nlmsgLen) + Align(|data|);
      return 0;
    }
  }

  // ---------------------------------------------------------------- parsing

  /** RTA_OK, for an attribute pointer at an offset with len bytes left. */
  predicate Ok(m: Memory, at: nat, len: int)
    requires len > 0 ==> at + len <= |m|
  {
    len >= RTA_HEADER && RTA_HEADER <= LenAt(m, at) <= len
  }

  function AttrAt(m: Memory, at: nat): Attr
    requires at + RTA_HEADER <= |m| && RTA_HEADER <= LenAt(m, at) <= |m| - at
  {
    Attr(TypeAt(m, at), m[at + RTA_HEADER..at + LenAt(m, at)])
  }

  /** The attributes that the loop of parse_rtattr meets. */
  function Attrs(m: Memory, at: nat, len: int): (r: seq<Attr>)
    requires len > 0 ==> at + len <= |m|
    ensures forall i | 0 <= i < |r| :: |r[i].payload| < 0x1_0000 - RTA_HEADER
    decreases len
  {
    if Ok(m, at, len) then
      var step := Align(LenAt(m, at));
      [AttrAt(m, at)] + Attrs(m, at + step, len - step)
    else []
  }

  /** The bytes it leaves, reported as a deficit unless 0. */
  function Deficit(m: Memory, at: nat, len: int): int
    requires len > 0 ==> at + len <= |m|
    decreases len
  {
    if Ok(m, at, len) then
      var step := Align(LenAt(m, at));
      Deficit(m, at + step, len - step)
    else len
  }

  /** The offset it stores for a type: that of the last attribute with the type. */
  function Found(m: Memory, at: nat, len: int, kind: int): Option<nat>
    requires len > 0 ==> at + len <= |m|
    decreases len
  {
    if Ok(m, at, len) then
      var step := Align(LenAt(m, at));
      var later := Found(m, at + step, len - step, kind);
      if later.None? && TypeAt(m, at) == kind then Some(at) else later
    else None
  }

  /** parse_rtattr on any memory, well formed or not: the loop ends, reads only the bytes given
      to it, and fills the table with the last attribute of each type. The report of a deficit
      then reads rta_len once more, at the offset where the loop stopped. Those two bytes lie
      within the ones given if and only if the deficit is at least 2; otherwise what is behind
      them is read. */
  method ParseRtattr(tb: array<Option<nat>>, max: int, m: Memory, start: nat, total: nat)
    returns (len: int, report: Option<nat>)
    requires tb.Length == max + 1 && start + total <= |m|
    modifies tb
    ensures len == Deficit(m, start, total)
    ensures forall t | 0 <= t <= max :: tb[t] == Found(m, start, total, t)
    ensures report == if len == 0 then None else Some(start + total - len)
    ensures ReportInside(report, start, total) <==> len == 0 || len >= 2
  {
    hide LenAt, TypeAt, Found, Deficit;
    for t := 0 to tb.Length
      invariant forall u | 0 <= u < t :: tb[u] == None
    {
      tb[t] := None;
    }
    var rta: nat := start;
    len := total;
    while Ok(m, rta, len)
      invariant start <= rta && rta + len == start + total
      invariant Deficit(m, rta, len) == Deficit(m, start, total)
      invariant forall t | 0 <= t <= max ::
                  Found(m, start, total, t)
                  == if Found(m, rta, len, t).Some? then Found(m, rta, len, t) else tb[t]
      decreases len
    {
      ParseStep(m, rta, len);
      if TypeAt(m, rta) <= max { tb[TypeAt(m, rta)] := Some(rta); }
      var step := Align(LenAt(m, rta));
      rta, len := rta + step, len - step;
    }
    ParseEnd(m, rta, len);
    report := if len != 0 then Some(rta) else None;
  }

  /** The two bytes of rta_len that the report reads, if it is made, are among those given. */
  predicate ReportInside(report: Option<nat>, start: nat, total: nat) {
    report.Some? ==> start <= report.value && report.value + 2 <= start + total
  }

  lemma ParseStep(m: Memory, at: nat, len: int)
    requires (len > 0 ==> at + len <= |m|) && Ok(m, at, len)
    ensures var step := Align(LenAt(m, at));
      && Deficit(m, at, len) == Deficit(m, at + step, len - step)
      && forall t :: Found(m, at, len, t)
                     == var later := Found(m, at + step, len - step, t);
                        if later.None? && TypeAt(m, at) == t then Some(at) else later
  {
    hide LenAt, TypeAt;
  }

  lemma ParseEnd(m: Memory, at: nat, len: int)
    requires (len > 0 ==> at + len <= |m|) && !Ok(m, at, len)
    ensures Deficit(m, at, len) == len && forall t :: Found(m, at, len, t) == None
  {
  }

  /** A last attribute whose length is not a multiple of 4 leaves a negative deficit: behind
      these five bytes the report reads those at offsets 8 and 9. */
  lemma ReportOutside()
    ensures var m := [5, 0, 1, 0, 9];
            Deficit(m, 0, 5) == -3 && !ReportInside(Some(5 - Deficit(m, 0, 5)), 0, 5)
  {
    var m: Memory := [5, 0, 1, 0, 9];
    assert LenAt(m, 0) == 5 && Ok(m, 0, 5);
    assert Deficit(m, 0, 5) == Deficit(m, 8, -3);
  }

  // ---------------------------------------------------------------- what was built is what is parsed

  /** The attribute at an offset, in the bytes before another offset. */
  ghost predicate Holds(m: Memory, from: nat, to: nat, a: Attr) {
    var len := RTA_HEADER + |a.payload|;
    from + Align(len) <= to <= |m| && LenAt(m, from) == len && AttrAt(m, from) == a
  }

  /** The bytes from one offset to another hold exactly these attributes. */
  ghost predicate Laid(m: Memory, from: nat, to: nat, attrs: seq<Attr>)
    decreases |attrs|
  {
    if attrs == [] then from == to <= |m|
    else
      && Holds(m, from, to, attrs[0])
      && Laid(m, from + Align(RTA_HEADER + |attrs[0].payload|), to, attrs[1..])
  }

  /** The last attribute of a type. */
  function LastOf(attrs: seq<Attr>, kind: int): Option<Attr> {
    if attrs == [] then None
    else
      var later := LastOf(attrs[1..], kind);
      if later.None? && attrs[0].kind == kind then Some(attrs[0]) else later
  }

  /** Parsing a laid out region meets its attributes and ends with no deficit. */
  lemma {:induction false} ParsesLaid(m: Memory, from: nat, to: nat, attrs: seq<Attr>)
    requires Laid(m, from, to, attrs)
    ensures from <= to <= |m|
    ensures Attrs(m, from, to - from) == attrs && Deficit(m, from, to - from) == 0
    decreases |attrs|
  {
    if attrs != [] {
      hide LenAt, TypeAt;
      var step := Align(RTA_HEADER + |attrs[0].payload|);
      ParsesLaid(m, from + step, to, attrs[1..]);
      assert to - from - step == to - (from + step);
    }
  }

  /** What the table says of a type: nothing if there is no such attribute, else where the last
      one is. */
  ghost predicate Finds(m: Memory, o: Option<nat>, a: Option<Attr>) {
    if o.None? then a == None
    else
      && o.value + RTA_HEADER <= |m| && RTA_HEADER <= LenAt(m, o.value) <= |m| - o.value
      && a == Some(AttrAt(m, o.value))
  }

  /** On any bytes the table maps a type to the last attribute with it among those the loop
      meets, or to none. */
  lemma {:induction false} FindsLast(m: Memory, at: nat, len: int, kind: int)
    requires len > 0 ==> at + len <= |m|
    ensures Finds(m, Found(m, at, len, kind), LastOf(Attrs(m, at, len), kind))
    decreases len
  {
    hide LenAt, TypeAt;
    if Ok(m, at, len) {
      var step := Align(LenAt(m, at));
      FindsLast(m, at + step, len - step, kind);
      assert Attrs(m, at, len)[1..] == Attrs(m, at + step, len - step);
    }
  }

  lemma {:induction false} LaidFrame(m: Memory, r: Memory, from: nat, to: nat, attrs: seq<Attr>)
    requires Laid(m, from, to, attrs) && |r| == |m| && r[..to] == m[..to]
    ensures Laid(r, from, to, attrs)
    decreases |attrs|
  {
    if attrs != [] {
      var len := RTA_HEADER + |attrs[0].payload|;
      LaidFrame(m, r, from + Align(len), to, attrs[1..]);
      forall i | from <= i < from + len ensures r[i] == m[i] {
        assert r[i] == r[..to][i] && m[i] == m[..to][i];
      }
      assert r[from + RTA_HEADER..from + len] == m[from + RTA_HEADER..from + len];
    }
  }

  lemma {:induction false} LaidJoin(m: Memory, from: nat, mid: nat, to: nat, a: seq<Attr>, b: seq<Attr>)
    requires Laid(m, from, mid, a) && Laid(m, mid, to, b) && mid <= to <= |m|
    ensures Laid(m, from, to, a + b)
    decreases |a|
  {
    if a == [] {
      assert a + b == b;
    } else {
      hide Holds, Align;
      var step := Align(RTA_HEADER + |a[0].payload|);
      assert (a + b)[0] == a[0] && (a + b)[1..] == a[1..] + b;
      LaidJoin(m, from + step, mid, to, a[1..], b);
      HoldsMore(m, from, mid, to, a[0]);
    }
  }

  lemma HoldsMore(m: Memory, from: nat, mid: nat, to: nat, a: Attr)
    requires Holds(m, from, mid, a) && mid <= to <= |m|
    ensures Holds(m, from, to, a)
  {
  }

  /** The longest payload whose length still fits the 16 bits of rta_len. */
  const MAX_PAYLOAD := 0x1_0000 - RTA_HEADER - 1

  lemma PutLaid(m: Memory, at: nat, kind: int, data: seq<Byte>)
    requires at + Align(RTA_HEADER + |data|) <= |m| && |data| <= MAX_PAYLOAD
    ensures Laid(Put(m, at, kind, data), at, at + Align(RTA_HEADER + |data|),
                 [Attr(kind % 0x1_0000, data)])
  {
    hide Put, LenAt, TypeAt;
    PutReads(m, at, kind, data);
    assert [Attr(kind % 0x1_0000, data)][1..] == [];
  }

  datatype Call = Add32(maxlen: nat, kind: int, word: Word) | Add(maxlen: nat, kind: int, data: seq<Byte>)

  function Payload(c: Call): seq<Byte> {
    if c.Add32? then Bytes32(c.word) else c.data
  }

  function Apply(m: Msg, c: Call): (r: Msg)
    requires c.maxlen <= |m.mem|
    ensures |r.mem| == |m.mem|
  {
    AddL(m, c.maxlen, c.kind, Payload(c))
  }

  predicate Accepted(m: Msg, c: Call) {
    Align(m.len) + Align(RTA_HEADER + |Payload(c)|) <= c.maxlen
  }

  predicate Bounded(calls: seq<Call>, bound: nat) {
    forall c | c in calls :: c.maxlen <= bound
  }

  function Build(m: Msg, calls: seq<Call>): (r: Msg)
    requires Bounded(calls, |m.mem|)
    ensures |r.mem| == |m.mem|
  {
    if calls == [] then m else Apply(Build(m, calls[..|calls| - 1]), calls[|calls| - 1])
  }

  /** The attributes of the accepted calls, with types as wide as rta_type. */
  function Added(m: Msg, calls: seq<Call>): seq<Attr>
    requires Bounded(calls, |m.mem|)
  {
    if calls == [] then []
    else
      var init, c := calls[..|calls| - 1], calls[|calls| - 1];
      Added(m, init)
      + if Accepted(Build(m, init), c) then [Attr(c.kind % 0x1_0000, Payload(c))] else []
  }

  /** One call: a rejected one changes nothing; an accepted one keeps nlmsg_len aligned and
      within maxlen, and writes only between the old nlmsg_len and maxlen. */
  lemma ApplyStays(m: Msg, c: Call)
    requires c.maxlen <= |m.mem| && m.len % 4 == 0
    ensures var r := Apply(m, c);
      && r.len % 4 == 0 && m.len <= r.len
      && (!Accepted(m, c) ==> r == m)
      && (Accepted(m, c) ==> m.len < r.len <= c.maxlen && r.mem[..m.len] == m.mem[..m.len]
                             && r.mem[c.maxlen..] == m.mem[c.maxlen..])
  {
    if Accepted(m, c) {
      hide Put;
      PutStays(m.mem, m.len, c.kind, Payload(c), c.maxlen);
    }
  }

  lemma PutStays(m: Memory, at: nat, kind: int, data: seq<Byte>, k: nat)
    requires at + RTA_HEADER + |data| <= k <= |m|
    ensures Put(m, at, kind, data)[..at] == m[..at] && Put(m, at, kind, data)[k..] == m[k..]
  {
  }

  lemma ApplyLaid(m: Msg, c: Call, from: nat, attrs: seq<Attr>)
    requires c.maxlen <= |m.mem| && m.len % 4 == 0 && Laid(m.mem, from, m.len, attrs)
    requires Accepted(m, c) && |Payload(c)| <= MAX_PAYLOAD
    ensures Laid(Apply(m, c).mem, from, Apply(m, c).len, attrs + [Attr(c.kind % 0x1_0000, Payload(c))])
  {
    hide Laid, Put, Payload;
    ApplyStays(m, c);
    var r := Apply(m, c);
    LaidFrame(m.mem, r.mem, from, m.len, attrs);
    PutLaid(m.mem, m.len, c.kind, Payload(c));
    LaidJoin(r.mem, from, m.len, r.len, attrs, [Attr(c.kind % 0x1_0000, Payload(c))]);
  }

  /** Whole runs: nlmsg_len never passes the largest bound, nothing beyond that bound or before
      the first attribute is written. */
  lemma {:induction false} BuildStays(m: Msg, calls: seq<Call>, bound: nat)
    requires m.len % 4 == 0 && m.len <= bound <= |m.mem| && Bounded(calls, bound)
    ensures var r := Build(m, calls);
      && r.len % 4 == 0 && m.len <= r.len <= bound
      && r.mem[..m.len] == m.mem[..m.len] && r.mem[bound..] == m.mem[bound..]
  {
    if calls != [] {
      hide Apply, Accepted;
      var n := |calls| - 1;
      BuildStays(m, calls[..n], bound);
      var b := Build(m, calls[..n]);
      ApplyStays(b, calls[n]);
      var r := Apply(b, calls[n]);
      if Accepted(b, calls[n]) {
        SameInside(r.mem, b.mem, m.len, b.len, calls[n].maxlen, bound);
      }
    }
  }

  lemma SameInside(r: Memory, b: Memory, lo: nat, from: nat, to: nat, hi: nat)
    requires lo <= from <= to <= hi <= |r| == |b| && r[..from] == b[..from] && r[to..] == b[to..]
    ensures r[..lo] == b[..lo] && r[hi..] == b[hi..]
  {
    assert r[..lo] == r[..from][..lo] && b[..lo] == b[..from][..lo];
    assert r[hi..] == r[to..][hi - to..] && b[hi..] == b[to..][hi - to..];
  }

  lemma {:induction false} BuildLaid(m: Msg, calls: seq<Call>)
    requires m.len % 4 == 0 && m.len <= |m.mem| && Bounded(calls, |m.mem|)
    requires forall a | a in Added(m, calls) :: |a.payload| <= MAX_PAYLOAD
    ensures Laid(Build(m, calls).mem, m.len, Build(m, calls).len, Added(m, calls))
  {
    hide Apply, Accepted, Laid, Payload;
    if calls != [] {
      var n := |calls| - 1;
      var b, c := Build(m, calls[..n]), calls[n];
      forall a | a in Added(m, calls[..n]) ensures |a.payload| <= MAX_PAYLOAD {
        assert a in Added(m, calls);
      }
      BuildLaid(m, calls[..n]);
      BuildStays(m, calls[..n], |m.mem|);
      ExtendLaid(b, c, m.len, Added(m, calls[..n]), Added(m, calls));
    } else {
      LaidNothing(m.mem, m.len);
    }
  }

  lemma ExtendLaid(b: Msg, c: Call, from: nat, before: seq<Attr>, after: seq<Attr>)
    requires c.maxlen <= |b.mem| && b.len % 4 == 0 && Laid(b.mem, from, b.len, before)
    requires after == before + if Accepted(b, c) then [Attr(c.kind % 0x1_0000, Payload(c))] else []
    requires forall a | a in after :: |a.payload| <= MAX_PAYLOAD
    ensures Laid(Apply(b, c).mem, from, Apply(b, c).len, after)
  {
    hide Apply, Accepted, Laid, Payload;
    ApplyStays(b, c);
    if Accepted(b, c) {
      assert after[|before|] in after;
      ApplyLaid(b, c, from, before);
    } else {
      assert before + [] == before;
    }
  }

  lemma LaidNothing(m: Memory, at: nat)
    requires at <= |m|
    ensures Laid(m, at, at, [])
  {
  }

  /** The round trip. From an aligned empty message, any calls: parsing what was built meets
      exactly the attributes of the accepted calls if and only if the length of each of their
      payloads fits rta_len. Then there is no deficit, and every type is mapped to the last
      attribute added with it, or to none. */
  lemma RoundTrip(m: Msg, calls: seq<Call>, kind: int)
    requires m.len % 4 == 0 && m.len <= |m.mem| && Bounded(calls, |m.mem|)
    ensures var r, added := Build(m, calls), Added(m, calls);
      var fit := forall a | a in added :: |a.payload| <= MAX_PAYLOAD;
      && m.len <= r.len <= |r.mem|
      && (fit <==> Attrs(r.mem, m.len, r.len - m.len) == added)
      && (fit ==> Deficit(r.mem, m.len, r.len - m.len) == 0)
      && (fit ==> Finds(r.mem, Found(r.mem, m.len, r.len - m.len, kind), LastOf(added, kind)))
  {
    hide Laid, Build, Added, Attrs, Deficit, Found, LastOf, Finds;
    BuildStays(m, calls, |m.mem|);
    var r, added := Build(m, calls), Added(m, calls);
    if forall a | a in added :: |a.payload| <= MAX_PAYLOAD {
      BuildLaid(m, calls);
      ParsesLaid(r.mem, m.len, r.len, added);
      FindsLast(r.mem, m.len, r.len - m.len, kind);
    }
  }
}
