/** The classic BPF machine, as far as the two STUN filters use it. */
module Bpf {
  import opened Words

  type Packet = seq<Byte>

  /** struct sock_filter */
  datatype Instr = Instr(code: int, jt: nat, jf: nat, k: Word)

  // the opcodes of the tables
  const LDH_ABS := 0x28
  const LDB_ABS := 0x30
  const LDX_MSH := 0xb1
  const LDB_IND := 0x50
  const LDH_IND := 0x48
  const LDW_IND := 0x40
  const JEQ := 0x15
  const JGE := 0x35
  const JSET := 0x45
  const RET := 0x6

  /** Program counter, accumulator and index register. */
  datatype State = State(pc: nat, a: Word, x: Word)

  datatype Outcome = Goto(next: State) | Return(value: Word)

  /** A big-endian load of 1, 2 or 4 bytes; None outside the packet. */
  datatype Loaded = None | Some(value: Word)

  function Load(p: Packet, at: nat, size: nat): (r: Loaded)
    requires size == 1 || size == 2 || size == 4
    ensures r.None? <==> at + size > |p|
  {
    if at + size > |p| then None
    else if size == 1 then Some(p[at])
    else if size == 2 then Some(0x100 * (p[at] as int) + p[at + 1] as int)
    else Some(0x100_0000 * (p[at] as int) + 0x1_0000 * (p[at + 1] as int)
              + 0x100 * (p[at + 2] as int) + p[at + 3] as int)
  }

  predicate IsAbs(code: int) { code == LDH_ABS || code == LDB_ABS }

  predicate IsInd(code: int) { code == LDW_IND || code == LDH_IND || code == LDB_IND }

  function Size(code: int): nat {
    if code == LDW_IND then 4 else if code == LDH_ABS || code == LDH_IND then 2 else 1
  }

  predicate IsJump(code: int) { code == JEQ || code == JGE || code == JSET }

  predicate Taken(i: Instr, a: Word) {
    if i.code == JEQ then a == i.k
    else if i.code == JGE then a >= i.k
    else And(a, i.k) != 0
  }

  /** One instruction. A load outside the packet ends the filter with 0, and so does an opcode
      the machine does not know. */
  function Exec(i: Instr, p: Packet, s: State): (r: Outcome)
    ensures r.Goto? ==> r.next.pc > s.pc
  {
    if IsAbs(i.code) then
      match Load(p, i.k, Size(i.code))
      case None => Return(0)
      case Some(v) => Goto(State(s.pc + 1, v, s.x))
    else if IsInd(i.code) then
      match Load(p, s.x + i.k, Size(i.code))
      case None => Return(0)
      case Some(v) => Goto(State(s.pc + 1, v, s.x))
    else if i.code == LDX_MSH then
      match Load(p, i.k, 1)
      case None => Return(0)
      case Some(v) => Goto(State(s.pc + 1, s.a, 4 * (v % 16)))
    else if IsJump(i.code) then
      Goto(s.(pc := s.pc + 1 + if Taken(i, s.a) then i.jt else i.jf))
    else if i.code == RET then Return(i.k)
    else Return(0)
  }

  /** A whole run. Jumps only go forward, so it ends for every program and packet; running off
      the end counts as a rejection. */
  function Run(prog: seq<Instr>, p: Packet, s: State): Word
    decreases if s.pc < |prog| then |prog| - s.pc else 0
  {
    if s.pc >= |prog| then 0
    else
      match Exec(prog[s.pc], p, s)
      case Return(v) => v
      case Goto(next) => Run(prog, p, next)
  }

  const START := State(0, 0, 0)

  /** The filter as the socket layer runs it on each received packet: registers updated
      instruction by instruction. */
  method Filter(prog: seq<Instr>, p: Packet) returns (value: Word)
    ensures value == Run(prog, p, START)
  {
    hide Taken, Load;
    var pc, a: Word, x: Word := 0, 0, 0;
    while pc < |prog|
      invariant 0 <= pc
      invariant Run(prog, p, State(pc, a, x)) == Run(prog, p, START)
      decreases |prog| - pc
    {
      var i := prog[pc];
      if i.code == RET {
        return i.k;
      } else if IsJump(i.code) {
        pc := pc + 1 + if Taken(i, a) then i.jt else i.jf;
      } else if i.code == LDX_MSH {
        var v := Load(p, i.k, 1);
        if v.None? {
          return 0;
        }
        pc, x := pc + 1, 4 * (v.value % 16);
      } else if IsAbs(i.code) || IsInd(i.code) {
        var v := Load(p, if IsAbs(i.code) then i.k else x + i.k, Size(i.code));
        if v.None? {
          return 0;
        }
        pc, a := pc + 1, v.value;
      } else {
        return 0;
      }
    }
    return 0;
  }

  // ---------------------------------------------------------------- program transformations

  /** Jumps are relative, so a run from pc is a run of the rest of the program. */
  lemma {:induction false} RunSuffix(prog: seq<Instr>, p: Packet, from: nat, s: State)
    requires from <= |prog|
    ensures Run(prog, p, s.(pc := from + s.pc)) == Run(prog[from..], p, s)
    decreases if from + s.pc < |prog| then |prog| - (from + s.pc) else 0
  {
    if from + s.pc < |prog| {
      var i := prog[from + s.pc];
      assert prog[from..][s.pc] == i;
      ExecShift(i, p, s, from);
      hide Exec;
      match Exec(i, p, s)
      case Return(v) =>
      case Goto(next) =>
        RunSuffix(prog, p, from, next);
    }
  }

  lemma ExecShift(i: Instr, p: Packet, s: State, from: nat)
    ensures Exec(i, p, s.(pc := from + s.pc)) ==
            match Exec(i, p, s)
            case Return(v) => Return(v)
            case Goto(next) => Goto(next.(pc := from + next.pc))
  {
    hide Taken, Load;
  }

  /** The same instruction for packets with d more bytes in front, returning `to` for `from`. */
  function Port(i: Instr, d: nat, from: Word, to: Word): Instr {
    if IsAbs(i.code) || IsInd(i.code) || i.code == LDX_MSH then i.(k := (i.k + d) % TWO32)
    else if i.code == RET && i.k == from then i.(k := to)
    else i
  }

  function PortAll(prog: seq<Instr>, d: nat, from: Word, to: Word): (r: seq<Instr>)
    ensures |r| == |prog| && forall i | 0 <= i < |prog| :: r[i] == Port(prog[i], d, from, to)
  {
    seq(|prog|, i requires 0 <= i < |prog| => Port(prog[i], d, from, to))
  }

  function Renamed(v: Word, from: Word, to: Word): Word { if v == from then to else v }

  lemma LoadBehind(hdr: Packet, p: Packet, at: nat, size: nat)
    requires size == 1 || size == 2 || size == 4
    ensures Load(hdr + p, at + |hdr|, size) == Load(p, at, size)
  {
  }

  lemma ExecPort(i: Instr, hdr: Packet, p: Packet, s: State, from: Word, to: Word)
    requires from != 0 && i.k + |hdr| < TWO32
    ensures Exec(Port(i, |hdr|, from, to), hdr + p, s) ==
            match Exec(i, p, s)
            case Return(v) => Return(Renamed(v, from, to))
            case Goto(next) => Goto(next)
  {
    LoadBehind(hdr, p, i.k, 1);
    LoadBehind(hdr, p, i.k, 2);
    LoadBehind(hdr, p, s.x + i.k, Size(i.code));
    hide Taken, Load;
  }

  /** For every program and packet: adding the length of a header to every offset gives a
      program that does with the header in front what the original does without it. */
  lemma {:induction false} RunPort(prog: seq<Instr>, hdr: Packet, p: Packet, s: State, from: Word, to: Word)
    requires from != 0 && forall i | 0 <= i < |prog| :: prog[i].k + |hdr| < TWO32
    ensures Run(PortAll(prog, |hdr|, from, to), hdr + p, s) == Renamed(Run(prog, p, s), from, to)
    decreases if s.pc < |prog| then |prog| - s.pc else 0
  {
    if s.pc < |prog| {
      ExecPort(prog[s.pc], hdr, p, s, from, to);
      hide Exec, Port;
      match Exec(prog[s.pc], p, s)
      case Return(v) =>
      case Goto(next) =>
        RunPort(prog, hdr, p, next, from, to);
    }
  }
}
