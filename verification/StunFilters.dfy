/** sniff_stun.c and raw_pf_stun.c: the STUN filter for Ethernet frames, and the one derived
    from it for IP packets received on a raw UDP socket. */
module StunFilters {
  import opened Words
  import opened Bpf

  const ETH: seq<Instr> := [
    Instr(0x28, 0, 0, 0x0000000c),
    Instr(0x15, 0, 14, 0x00000800),
    Instr(0x30, 0, 0, 0x0000001e),
    Instr(0x35, 12, 0, 0x000000e0),
    Instr(0x30, 0, 0, 0x00000017),
    Instr(0x15, 0, 10, 0x00000011),
    Instr(0x28, 0, 0, 0x00000014),
    Instr(0x45, 8, 0, 0x00001fff),
    Instr(0xb1, 0, 0, 0x0000000e),
    Instr(0x50, 0, 0, 0x00000016),
    Instr(0x15, 0, 5, 0x00000000),
    Instr(0x48, 0, 0, 0x00000018),
    Instr(0x45, 3, 0, 0x00000003),
    Instr(0x40, 0, 0, 0x0000001a),
    Instr(0x15, 0, 1, 0x2112a442),
    Instr(0x6, 0, 0, 0x000005ea),
    Instr(0x6, 0, 0, 0x00000000)
  ]

  const RAW: seq<Instr> := [
    Instr(0x30, 0, 0, 0x00000010),
    Instr(0x35, 10, 0, 0x000000e0),
    Instr(0x28, 0, 0, 0x00000006),
    Instr(0x45, 8, 0, 0x00001fff),
    Instr(0xb1, 0, 0, 0x00000000),
    Instr(0x50, 0, 0, 0x00000008),
    Instr(0x15, 0, 5, 0x00000000),
    Instr(0x48, 0, 0, 0x0000000a),
    Instr(0x45, 3, 0, 0x00000003),
    Instr(0x40, 0, 0, 0x0000000c),
    Instr(0x15, 0, 1, 0x2112a442),
    Instr(0x6, 0, 0, 0x00000100),
    Instr(0x6, 0, 0, 0x00000000)
  ]

  const RAW_ACCEPT: Word := 0x100
  const ETH_ACCEPT: Word := 0x5ea
  const MAGIC_COOKIE: Word := 0x2112a442

  /** A unicast, unfragmented or first-fragment IP packet whose payload, behind a header of the
      length it states and 8 bytes of UDP header, begins like a STUN message: type below 0x100,
      length a multiple of 4, and the magic cookie (section 6 of RFC 5389). */
  predicate IsStun(p: Packet) {
    && |p| > 16 && p[16] < 0xe0
    && Net16(p, 6) % 0x2000 == 0
    && var udp := 4 * (p[0] % 16);
       && udp + 16 <= |p|
       && p[udp + 8] == 0
       && Net16(p, udp + 10) % 4 == 0
       && Net32(p, udp + 12) == MAGIC_COOKIE
  }

  lemma FragmentBits(a: Word)
    ensures And(a, 0x1fff) == 0 <==> a % 0x2000 == 0
    ensures And(a, 3) == 0 <==> a % 4 == 0
  {
    assert Pow2(8) == 0x100;
    assert Pow2(13) == 0x2000 && Pow2(2) == 4;
    AndLowMask(a, 13);
    AndLowMask(a, 2);
    LowIsRemainder(a, 13);
    LowIsRemainder(a, 2);
  }

  // ---------------------------------------------------------------- the raw filter

  lemma Step(prog: seq<Instr>, p: Packet, s: State)
    requires s.pc < |prog|
    ensures Run(prog, p, s) ==
            var o := Exec(prog[s.pc], p, s);
            if o.Return? then o.value else Run(prog, p, o.next)
  {
    hide Exec;
  }

  lemma RawReturns(p: Packet, a: Word, x: Word)
    ensures Run(RAW, p, State(11, a, x)) == RAW_ACCEPT && Run(RAW, p, State(12, a, x)) == 0
  {
    Step(RAW, p, State(11, a, x));
    Step(RAW, p, State(12, a, x));
  }

  /** From the load of the magic cookie on. */
  lemma RawCookie(p: Packet, a: Word, x: Word)
    ensures Run(RAW, p, State(9, a, x)) ==
            if x + 16 <= |p| && Net32(p, x + 12) == MAGIC_COOKIE then RAW_ACCEPT else 0
  {
    hide Run;
    Step(RAW, p, State(9, a, x));
    if x + 16 <= |p| {
      var v := Net32(p, x + 12);
      Step(RAW, p, State(10, v, x));
      RawReturns(p, v, x);
    }
  }

  /** From the load of the message length on. */
  lemma RawLength(p: Packet, a: Word, x: Word)
    ensures Run(RAW, p, State(7, a, x)) ==
            if x + 16 <= |p| && Net16(p, x + 10) % 4 == 0 && Net32(p, x + 12) == MAGIC_COOKIE then RAW_ACCEPT else 0
  {
    hide Run, And;
    Step(RAW, p, State(7, a, x));
    if x + 12 <= |p| {
      var v := Net16(p, x + 10);
      Step(RAW, p, State(8, v, x));
      FragmentBits(v);
      RawCookie(p, v, x);
      RawReturns(p, v, x);
    }
  }

  /** From the load of the message type on. */
  lemma RawType(p: Packet, a: Word, x: Word)
    ensures Run(RAW, p, State(5, a, x)) ==
            if && x + 16 <= |p| && p[x + 8] == 0 && Net16(p, x + 10) % 4 == 0
               && Net32(p, x + 12) == MAGIC_COOKIE
            then RAW_ACCEPT else 0
  {
    hide Run, And, Net16, Net32;
    Step(RAW, p, State(5, a, x));
    if x + 8 < |p| {
      var v: Word := p[x + 8];
      Step(RAW, p, State(6, v, x));
      RawLength(p, v, x);
      RawReturns(p, v, x);
    }
  }

  /** From the load of the fragment field on. */
  lemma RawFragment(p: Packet, a: Word, x: Word)
    ensures Run(RAW, p, State(2, a, x)) ==
            if && |p| >= 8 && Net16(p, 6) % 0x2000 == 0
               && var udp := 4 * (p[0] % 16);
                  && udp + 16 <= |p| && p[udp + 8] == 0 && Net16(p, udp + 10) % 4 == 0
                  && Net32(p, udp + 12) == MAGIC_COOKIE
            then RAW_ACCEPT else 0
  {
    hide Run, And, Net32;
    Step(RAW, p, State(2, a, x));
    if |p| >= 8 {
      var v := Net16(p, 6);
      Step(RAW, p, State(3, v, x));
      FragmentBits(v);
      RawReturns(p, v, x);
      Step(RAW, p, State(4, v, x));
      RawType(p, v, 4 * (p[0] % 16));
    }
  }

  /** The 13-instruction filter returns 256 for exactly the STUN-like packets, and 0 for every
      other packet of any length. */
  lemma RawFilterIs(p: Packet)
    ensures Run(RAW, p, START) == if IsStun(p) then RAW_ACCEPT else 0
  {
    hide Run, And, Net32, Net16;
    Step(RAW, p, START);
    if |p| > 16 {
      var v: Word := p[16];
      Step(RAW, p, State(1, v, 0));
      RawReturns(p, v, 0);
      RawFragment(p, v, 0);
    }
  }

  // ---------------------------------------------------------------- the Ethernet filter

  const ETH_HEADER := 14

  /** The derivation: from the fragment check on, the Ethernet filter is the raw filter with 14
      added to every offset, and another length returned on acceptance. */
  lemma TailIsPorted()
    ensures ETH[6..] == PortAll(RAW[2..], ETH_HEADER, RAW_ACCEPT, ETH_ACCEPT)
  {
    hide PortAll, Port;
    var ported := PortAll(RAW[2..], ETH_HEADER, RAW_ACCEPT, ETH_ACCEPT);
    forall i | 0 <= i < 11 ensures ETH[6..][i] == ported[i] {
      PortedAt(i);
      assert ETH[6..][i] == ETH[6 + i] && RAW[2..][i] == RAW[2 + i];
    }
  }

  lemma PortedAt(i: nat)
    requires i < 11
    ensures ETH[6 + i] == Port(RAW[2 + i], ETH_HEADER, RAW_ACCEPT, ETH_ACCEPT)
  {
  }

  /** Behind any 14-byte header, from the fragment check on, both filters agree. */
  lemma TailsAgree(hdr: Packet, p: Packet, a: Word, x: Word)
    requires |hdr| == ETH_HEADER
    ensures Run(ETH, hdr + p, State(6, a, x)) == Renamed(Run(RAW, p, State(2, a, x)), RAW_ACCEPT, ETH_ACCEPT)
  {
    hide Run, PortAll;
    TailIsPorted();
    var s := State(0, a, x);
    RunSuffix(ETH, hdr + p, 6, s);
    RunSuffix(RAW, p, 2, s);
    forall i | 0 <= i < |RAW[2..]| ensures RAW[2..][i].k + ETH_HEADER < TWO32 {
      assert RAW[2..][i] == RAW[2 + i];
    }
    RunPort(RAW[2..], hdr, p, s, RAW_ACCEPT, ETH_ACCEPT);
  }

  lemma EthRejects(f: Packet, a: Word, x: Word)
    ensures Run(ETH, f, State(16, a, x)) == 0
  {
    Step(ETH, f, State(16, a, x));
  }

  /** The 17-instruction filter looks for the same packets behind an Ethernet header of type IP
      and with protocol UDP. */
  lemma EthFilterIs(hdr: Packet, p: Packet)
    requires |hdr| == ETH_HEADER
    ensures Run(ETH, hdr + p, START) ==
            if Net16(hdr, 12) == 0x0800 && |p| > 9 && p[9] == 17 && IsStun(p) then ETH_ACCEPT else 0
  {
    hide Run, And, Net32;
    var f := hdr + p;
    EthType(hdr, p);
    if Net16(hdr, 12) == 0x0800 {
      EthAddress(hdr, p);
    }
  }

  lemma EthType(hdr: Packet, p: Packet)
    requires |hdr| == ETH_HEADER
    ensures Run(ETH, hdr + p, START) ==
            if Net16(hdr, 12) == 0x0800 then Run(ETH, hdr + p, State(2, 0x0800, 0)) else 0
  {
    hide Run;
    var f := hdr + p;
    var v := Net16(hdr, 12);
    assert Load(f, 12, 2) == Some(v);
    Step(ETH, f, START);
    Step(ETH, f, State(1, v, 0));
    EthRejects(f, v, 0);
  }

  lemma EthAddress(hdr: Packet, p: Packet)
    requires |hdr| == ETH_HEADER
    ensures Run(ETH, hdr + p, State(2, 0x0800, 0)) ==
            if |p| > 9 && p[9] == 17 && IsStun(p) then ETH_ACCEPT else 0
  {
    hide Run, Net16, Net32;
    var f := hdr + p;
    Step(ETH, f, State(2, 0x0800, 0));
    if |p| > 16 {
      var v: Word := p[16];
      assert Load(f, 30, 1) == Some(v);
      Step(ETH, f, State(3, v, 0));
      EthRejects(f, v, 0);
      if v < 0xe0 {
        var u: Word := p[9];
        assert Load(f, 23, 1) == Some(u);
        Step(ETH, f, State(4, v, 0));
        Step(ETH, f, State(5, u, 0));
        EthRejects(f, u, 0);
        TailsAgree(hdr, p, u, 0);
        RawFragment(p, u, 0);
      }
    }
  }

  /** A frame shorter than its header is rejected. */
  lemma EthShort(f: Packet)
    requires |f| < ETH_HEADER
    ensures Run(ETH, f, START) == 0
  {
    Step(ETH, f, START);
  }

  /** The derivation preserves meaning: behind an Ethernet header of type IP, for every packet
      whose protocol byte is UDP, the 17-instruction filter accepts just when the 13-instruction
      filter accepts the IP packet alone. */
  lemma FiltersAgree(hdr: Packet, p: Packet)
    requires |hdr| == ETH_HEADER && Net16(hdr, 12) == 0x0800 && |p| > 9 && p[9] == 17
    ensures Run(ETH, hdr + p, START) != 0 <==> Run(RAW, p, START) != 0
    ensures Run(RAW, p, START) != 0 <==> IsStun(p)
  {
    hide Run, IsStun;
    EthFilterIs(hdr, p);
    RawFilterIs(p);
  }
}
