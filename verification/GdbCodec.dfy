/** The register and memory packets of the GDB server: `g`, `G`, `m` and `M`. */
module GdbCodec {
  import opened Machine
  import opened Modular
  import opened Options
  import opened HexText
  import opened Text

  function FromHex(hi: char, lo: char): Byte {
    16 * Nibble(hi) + Nibble(lo)
  }

  /** The bytes a string of hex pairs stands for; a last odd character is ignored. */
  function Bytes(hex: string): (b: seq<Byte>)
    ensures |b| == |hex| / 2
  {
    if |hex| < 2 then [] else [FromHex(hex[0], hex[1])] + Bytes(hex[2..])
  }

  /** Two lower-case digits per byte. */
  function HexOf(b: seq<Byte>): (s: string)
    ensures |s| == 2 * |b|
  {
    if b == [] then "" else HexOf(b[..|b| - 1]) + Byte2(b[|b| - 1])
  }

  function Lowered(s: string): (t: string)
    ensures |t| == |s|
  {
    seq(|s|, i requires 0 <= i < |s| => LowerCase(s[i]))
  }

  lemma {:induction false} FromHexOfByte2(v: Byte)
    ensures FromHex(Byte2(v)[0], Byte2(v)[1]) == v
  {
    NibbleOfDigit(v / 16);
    NibbleOfDigit(v % 16);
  }

  lemma {:induction false} TwoNibbles(a: int, b: int)
    requires 0 <= a < 16 && 0 <= b < 16
    ensures (16 * a + b) / 16 == a && (16 * a + b) % 16 == b
  {
  }

  lemma {:induction false} Byte2OfFromHex(hi: char, lo: char)
    requires IsHex(hi) && IsHex(lo)
    ensures Byte2(FromHex(hi, lo)) == [LowerCase(hi), LowerCase(lo)]
  {
    TwoNibbles(Nibble(hi), Nibble(lo));
    DigitOfNibble(hi);
    DigitOfNibble(lo);
  }

  lemma {:induction false} HexOfSnoc(b: seq<Byte>, i: nat)
    requires i < |b|
    ensures HexOf(b[..i + 1]) == HexOf(b[..i]) + Byte2(b[i])
  {
    assert b[..i + 1][..i] == b[..i];
  }

  lemma {:induction false} HexOfAt(b: seq<Byte>, i: nat)
    requires i < |b|
    ensures HexOf(b)[2 * i] == Byte2(b[i])[0] && HexOf(b)[2 * i + 1] == Byte2(b[i])[1]
  {
    if i < |b| - 1 {
      HexOfAt(b[..|b| - 1], i);
    }
  }

  lemma {:induction false} BytesAt(hex: string, i: nat)
    requires 2 * i + 1 < |hex|
    ensures Bytes(hex)[i] == FromHex(hex[2 * i], hex[2 * i + 1])
  {
    if i > 0 {
      BytesAt(hex[2..], i - 1);
    }
  }

  /** Reading printed bytes gives them back. */
  lemma {:induction false} BytesOfHexOf(b: seq<Byte>)
    ensures Bytes(HexOf(b)) == b
  {
    forall i | 0 <= i < |b|
      ensures Bytes(HexOf(b))[i] == b[i]
    {
      HexOfAt(b, i);
      BytesAt(HexOf(b), i);
      FromHexOfByte2(b[i]);
    }
  }

  /** Printing the bytes of hex text gives the text back in lower case. */
  lemma {:induction false} HexOfBytes(hex: string)
    requires AllHex(hex) && |hex| % 2 == 0
    ensures HexOf(Bytes(hex)) == Lowered(hex)
  {
    HexOfPrefix(hex, |hex| / 2);
    assert hex[..2 * (|hex| / 2)] == hex && Bytes(hex)[..|hex| / 2] == Bytes(hex);
  }

  lemma {:induction false} HexOfPrefix(hex: string, k: nat)
    requires AllHex(hex) && 2 * k <= |hex|
    ensures k <= |Bytes(hex)| && HexOf(Bytes(hex)[..k]) == Lowered(hex[..2 * k])
  {
    if k > 0 {
      var i := k - 1;
      HexOfPrefix(hex, i);
      HexOfSnoc(Bytes(hex), i);
      BytesAt(hex, i);
      Byte2OfFromHex(hex[2 * i], hex[2 * i + 1]);
      assert Lowered(hex[..2 * k]) == Lowered(hex[..2 * i]) + [LowerCase(hex[2 * i]), LowerCase(hex[2 * i + 1])];
    }
  }

  // ---- Memory packets ----

  const MAX_READ := 0x1_0000

  /** The reply to `m`; `None` where a malformed number throws. */
  function ReadMem(m: seq<Byte>, params: string): Option<string>
    requires |m| > 0
  {
    var comma := IndexOf(params, ',');
    if comma == |params| then Some("E01")
    else
      match (Stoul(params[..comma]), Stoul(params[comma + 1..]))
      case (Some(addr), Some(len)) =>
        var n := if Wrap(len) > MAX_READ then MAX_READ else Wrap(len);
        Some(HexOf(PeekRange(m, Wrap(addr), n)))
      case _ => None
  }

  /** The memory and the reply after `M`; its length field is not looked at. */
  function WriteMem(m: seq<Byte>, params: string): Option<(seq<Byte>, string)>
    requires |m| > 0
  {
    var comma := IndexOf(params, ',');
    var colon := IndexOf(params, ':');
    if comma == |params| || colon == |params| then Some((m, "E01"))
    else
      match Stoul(params[..comma])
      case Some(addr) => Some((PokeRange(m, Wrap(addr), Bytes(params[colon + 1..])), "OK"))
      case None => None
  }

  /** The print loop of `m`. */
  method PrintRange(bus: Bus, addr: Word32, len: nat) returns (result: string)
    requires bus.Valid() && len < WORD32
    ensures result == HexOf(PeekRange(bus.cells[..], addr, len))
  {
    result := "";
    ghost var data := PeekRange(bus.cells[..], addr, len);
    for i := 0 to len
      invariant result == HexOf(data[..i])
    {
      HexOfSnoc(data, i);
      result := result + Byte2(bus.PeekAt(addr + i));
    }
    assert data[..len] == data;
  }

  method HandleReadMem(bus: Bus, params: string) returns (reply: Option<string>)
    requires bus.Valid()
    ensures reply == ReadMem(bus.cells[..], params)
  {
    var comma := IndexOf(params, ',');
    if comma == |params| { return Some("E01"); }
    var a := Stoul(params[..comma]);
    if a.None? { return None; }
    var l := Stoul(params[comma + 1..]);
    if l.None? { return None; }
    var len := Wrap(l.value);
    if len > MAX_READ { len := MAX_READ; }
    var result := PrintRange(bus, Wrap(a.value), len);
    reply := Some(result);
  }

  /** The write loop of `M`. */
  method WritePairs(bus: Bus, base: Word32, hexData: string)
    requires bus.Valid()
    modifies bus.cells
    ensures bus.cells[..] == PokeRange(old(bus.cells[..]), base, Bytes(hexData))
  {
    var addr: int := base;
    ghost var m, data := bus.cells[..], Bytes(hexData);
    var i := 0;
    ghost var k := 0;
    while i + 1 < |hexData|
      invariant i == 2 * k <= |hexData|
      invariant addr == Wrap(base + k)
      invariant bus.cells[..] == PokeRange(m, base, data[..k])
    {
      BytesAt(hexData, k);
      PokeRangeSnoc(m, base, data, k);
      WrapIsInvisible(base + k, bus.cells.Length);
      bus.Write8(addr, FromHex(hexData[i], hexData[i + 1]));
      WrapStep(base + k, 1);
      addr := Wrap(addr + 1);
      i, k := i + 2, k + 1;
    }
    assert data[..k] == data;
  }

  method HandleWriteMem(bus: Bus, params: string) returns (reply: Option<string>)
    requires bus.Valid()
    modifies bus.cells
    ensures match WriteMem(old(bus.cells[..]), params)
            case Some(r) => bus.cells[..] == r.0 && reply == Some(r.1)
            case None => bus.cells[..] == old(bus.cells[..]) && reply == None
  {
    var comma := IndexOf(params, ',');
    var colon := IndexOf(params, ':');
    if comma == |params| || colon == |params| { return Some("E01"); }
    var a := Stoul(params[..comma]);
    if a.None? { return None; }
    WritePairs(bus, Wrap(a.value), params[colon + 1..]);
    reply := Some("OK");
  }

  /** The first separator, and the texts on its two sides. */
  lemma {:induction false} FindInFront(front: string, c: char, rest: string)
    requires c !in front
    ensures var s := front + [c] + rest;
            IndexOf(s, c) == |front| && s[..|front|] == front && s[|front| + 1..] == rest
  {
    var s := front + [c] + rest;
    assert forall i :: 0 <= i < |front| ==> s[i] == front[i];
    assert s[|front|] == c;
  }

  lemma {:induction false} WriteMemIs(m: seq<Byte>, addrText: string, lenText: string, hex: string)
    requires |m| > 0 && Stoul(addrText).Some?
    requires ',' !in addrText && ':' !in addrText && ',' !in lenText && ':' !in lenText
    ensures WriteMem(m, addrText + "," + lenText + ":" + hex)
            == Some((PokeRange(m, Wrap(Stoul(addrText).value), Bytes(hex)), "OK"))
  {
    Regroup(addrText, lenText, hex);
    FindInFront(addrText, ',', lenText + ":" + hex);
    FindInFront(addrText + "," + lenText, ':', hex);
  }

  lemma {:induction false} Regroup(a: string, b: string, c: string)
    ensures a + "," + b + ":" + c == a + "," + (b + ":" + c)
  {
  }

  lemma {:induction false} ReadMemIs(m: seq<Byte>, addrText: string, lenText: string)
    requires |m| > 0 && ',' !in addrText && Stoul(addrText).Some? && Stoul(lenText).Some?
    requires Wrap(Stoul(lenText).value) <= 0x1_0000
    ensures ReadMem(m, addrText + "," + lenText)
            == Some(HexOf(PeekRange(m, Wrap(Stoul(addrText).value), Wrap(Stoul(lenText).value))))
  {
    FindInFront(addrText, ',', lenText);
  }

  /** However much is asked for, `m` returns no more than 64K bytes. */
  lemma {:induction false} LongReadIsCut(m: seq<Byte>, addrText: string, lenText: string)
    requires |m| > 0 && ',' !in addrText && Stoul(addrText).Some? && Stoul(lenText).Some?
    requires Wrap(Stoul(lenText).value) > 0x1_0000
    ensures ReadMem(m, addrText + "," + lenText) == Some(HexOf(PeekRange(m, Wrap(Stoul(addrText).value), 0x1_0000)))
  {
    FindInFront(addrText, ',', lenText);
  }

  lemma {:induction false} NotFound(s: string, c: char)
    requires c !in s
    ensures IndexOf(s, c) == |s|
  {
  }

  /** Without its separators a packet is answered E01, and changes nothing; a malformed number
      behind them throws. */
  lemma {:induction false} Malformed(m: seq<Byte>, params: string, numText: string, rest: string)
    requires |m| > 0
    ensures ',' !in params ==> ReadMem(m, params) == Some("E01")
    ensures ',' !in params || ':' !in params ==> WriteMem(m, params) == Some((m, "E01"))
    ensures params == numText + "," + rest && ',' !in numText && Stoul(numText).None? ==>
              ReadMem(m, params) == None && (':' in params ==> WriteMem(m, params) == None)
    ensures params == numText + "," + rest && ',' !in numText && Stoul(rest).None? ==> ReadMem(m, params) == None
  {
    if ',' !in params { NotFound(params, ','); }
    if ':' !in params { NotFound(params, ':'); }
    if params == numText + "," + rest && ',' !in numText {
      FindInFront(numText, ',', rest);
    }
  }

  lemma {:induction false} CellKept(m: seq<Byte>, addr: int, data: seq<Byte>, c: nat)
    requires c < |m| && |data| <= |m| && (c - addr) % |m| >= |data|
    ensures PokeRange(m, addr, data)[c] == m[c]
  {
    PokeRangeCells(m, addr, data, c);
  }

  /** `M` leaves every cell outside its range alone. */
  lemma {:induction false} WriteFrames(m: seq<Byte>, addrText: string, lenText: string, hex: string, c: nat)
    requires c < |m| && |hex| / 2 <= |m| && Stoul(addrText).Some?
    requires ',' !in addrText && ':' !in addrText && ',' !in lenText && ':' !in lenText
    requires (c - Wrap(Stoul(addrText).value)) % |m| >= |hex| / 2
    ensures WriteMem(m, addrText + "," + lenText + ":" + hex).Some?
    ensures WriteMem(m, addrText + "," + lenText + ":" + hex).value.0[c] == m[c]
  {
    CellKept(m, Wrap(Stoul(addrText).value), Bytes(hex), c);
    WriteMemIs(m, addrText, lenText, hex);
  }

  /** After `M`, an `m` of the same range returns the data in lower case, exactly if digits
      bound for one cell agree; data that fits the bus always comes back. The range must fit
      one `m` reply. */
  lemma {:induction false} WriteThenRead(m: seq<Byte>, addrText: string, lenText: string, hex: string, readLen: string)
    requires |m| > 0
    requires ',' !in addrText && ':' !in addrText && ',' !in lenText && ':' !in lenText
    requires Stoul(addrText).Some? && Stoul(readLen).Some?
    requires AllHex(hex) && |hex| % 2 == 0 && |hex| / 2 <= MAX_READ && Wrap(Stoul(readLen).value) == |hex| / 2
    ensures var w := WriteMem(m, addrText + "," + lenText + ":" + hex);
            && w.Some? && w.value.1 == "OK" && |w.value.0| == |m|
            && (ReadMem(w.value.0, addrText + "," + readLen) == Some(Lowered(hex))
                <==> Agrees(Wrap(Stoul(addrText).value), Bytes(hex), |m|))
    ensures |hex| / 2 <= |m| ==> Agrees(Wrap(Stoul(addrText).value), Bytes(hex), |m|)
  {
    var addr, data := Wrap(Stoul(addrText).value), Bytes(hex);
    WriteMemIs(m, addrText, lenText, hex);
    ReadMemIs(PokeRange(m, addr, data), addrText, readLen);
    PeekAfterPokeExactly(m, addr, data);
    HexOfBytes(hex);
    BytesOfHexOf(data);
    BytesOfHexOf(PeekRange(PokeRange(m, addr, data), addr, |data|));
  }

  // ---- Register packets ----

  /** GDB's register order; the program counter is register 4, two bytes wide. */
  const REGS: seq<string> := ["A", "X", "Y", "SP", "PC", "P"]

  const PC_REG := 4

  /** The characters of a packet taken by registers 0 up to `g`. */
  function End(g: nat): nat
    requires g <= 6
  {
    if g <= PC_REG then 2 * g else 2 * g + 2
  }

  /** A CPU may or may not list its program counter as a register; the value is `pc` itself. */
  predicate ListsPc(c: CpuState) {
    REGS[PC_REG] in c.regs
  }

  function RegText(c: CpuState, g: nat): (s: string)
    requires g < 6
    ensures |s| == End(g + 1) - End(g)
  {
    if g == PC_REG then (if ListsPc(c) then Byte2(c.pc % 256) + Byte2(c.pc / 256 % 256) else "0000")
    else Byte2(c.Reg(REGS[g]) % 256)
  }

  /** Registers 0 up to `g`, as `g` prints them; one the CPU lacks prints as zero. */
  function RegsText(c: CpuState, g: nat): (s: string)
    requires g <= 6
    ensures |s| == End(g)
  {
    if g == 0 then "" else RegsText(c, g - 1) + RegText(c, g - 1)
  }

  /** Register `g` set from its place in the packet. */
  function WithGdbReg(c: CpuState, data: string, g: nat): CpuState
    requires g < 6 && End(g + 1) <= |data|
  {
    var p := End(g);
    if g == PC_REG then
      (if ListsPc(c) then
         c.(pc := FromHex(data[p], data[p + 1]) as int + 256 * FromHex(data[p + 2], data[p + 3]) as int)
       else c)
    else c.WithReg(REGS[g], FromHex(data[p], data[p + 1]))
  }

  /** Registers 0 up to `g` set from a packet, as far as the packet goes. */
  function WithGdbRegs(c: CpuState, data: string, g: nat): CpuState
    requires g <= 6
  {
    if g == 0 then c
    else
      var c' := WithGdbRegs(c, data, g - 1);
      if End(g) <= |data| then WithGdbReg(c', data, g - 1) else c'
  }

  method HandleReadRegs(cpu: Cpu) returns (result: string)
    ensures result == RegsText(cpu.state, 6)
  {
    result := "";
    for g := 0 to 6
      invariant result == RegsText(cpu.state, g)
    {
      if g == PC_REG {
        result := result + if ListsPc(cpu.state)
          then Byte2(cpu.state.pc % 256) + Byte2(cpu.state.pc / 256 % 256) else "0000";
      } else {
        result := result + Byte2(cpu.state.Reg(REGS[g]) % 256);
      }
    }
  }

  lemma {:induction false} ShortPacketStops(c: CpuState, data: string, g: nat, h: nat)
    requires g <= h <= 6 && (g < h ==> End(g + 1) > |data|)
    ensures WithGdbRegs(c, data, h) == WithGdbRegs(c, data, g)
  {
    if g < h {
      ShortPacketStops(c, data, g, h - 1);
    }
  }

  method HandleWriteRegs(cpu: Cpu, data: string) returns (reply: string)
    modifies cpu
    ensures reply == "OK"
    ensures cpu.state == WithGdbRegs(old(cpu.state), data, 6)
  {
    ghost var c := cpu.state;
    var pos, g := 0, 0;
    while g < 6 && pos + 1 < |data|
      invariant 0 <= g <= 6 && pos == End(g)
      invariant cpu.state == WithGdbRegs(c, data, g)
      decreases 6 - g
    {
      if g == PC_REG {
        if pos + 3 >= |data| { break; }
        var lo, hi := FromHex(data[pos], data[pos + 1]), FromHex(data[pos + 2], data[pos + 3]);
        if ListsPc(cpu.state) { cpu.SetPc(lo as int + 256 * hi as int); }
        pos := pos + 4;
      } else {
        cpu.RegWrite(REGS[g], FromHex(data[pos], data[pos + 1]));
        pos := pos + 2;
      }
      g := g + 1;
    }
    ShortPacketStops(c, data, g, 6);
    reply := "OK";
  }

  /** The value of register `g`. */
  function GdbReg(c: CpuState, g: nat): Word32
    requires g < 6
  {
    if g == PC_REG then c.pc else c.Reg(REGS[g])
  }

  /** The CPU lists all of GDB's registers. */
  ghost predicate HasGdbRegs(c: CpuState) {
    forall g :: 0 <= g < 6 ==> REGS[g] in c.regs
  }

  /** A name whose entry in the register file no packet sets. */
  predicate Untouched(n: string) {
    n !in REGS || n == REGS[PC_REG]
  }

  /** The value a packet holds for register `g`. */
  function PacketReg(data: string, g: nat): Word32
    requires g < 6 && End(g + 1) <= |data|
  {
    var p := End(g);
    if g == PC_REG then FromHex(data[p], data[p + 1]) as int + 256 * FromHex(data[p + 2], data[p + 3]) as int
    else FromHex(data[p], data[p + 1])
  }

  lemma {:induction false} RegsDistinct(g: nat, h: nat)
    requires g < 6 && h < 6 && g != h
    ensures REGS[g] != REGS[h]
  {
    assert |REGS[g]| == |REGS[h]| ==> REGS[g][0] != REGS[h][0];
  }

  lemma {:induction false} WriteOneReg(c: CpuState, data: string, g: nat, h: nat)
    requires HasGdbRegs(c) && g < 6 && h < 6 && End(h + 1) <= |data|
    ensures var r := WithGdbReg(c, data, h);
            && r.regs.Keys == c.regs.Keys
            && GdbReg(r, g) == (if g == h then PacketReg(data, g) else GdbReg(c, g))
            && forall n :: n in c.regs && (n != REGS[h] || h == PC_REG) ==> r.regs[n] == c.regs[n]
  {
    if g != h {
      RegsDistinct(g, h);
    }
  }

  /** However long the packet, `G` sets exactly the registers it holds in full, which are a
      prefix of the register order, and leaves all others alone. */
  lemma {:induction false} WriteRegsPrefix(c: CpuState, data: string, g: nat, h: nat)
    requires HasGdbRegs(c) && g < 6 && h <= 6
    ensures var r := WithGdbRegs(c, data, h);
            && r.regs.Keys == c.regs.Keys
            && GdbReg(r, g) == (if g < h && End(g + 1) <= |data| then PacketReg(data, g) else GdbReg(c, g))
            && forall n :: n in c.regs && Untouched(n) ==> r.regs[n] == c.regs[n]
  {
    if h > 0 {
      WriteRegsPrefix(c, data, g, h - 1);
      var c' := WithGdbRegs(c, data, h - 1);
      if End(h) <= |data| {
        WriteOneReg(c', data, g, h - 1);
        assert REGS[h - 1] in REGS;
      }
    }
  }

  lemma {:induction false} SliceOfAppend(a: string, b: string, i: nat, j: nat)
    requires i <= j <= |a|
    ensures (a + b)[i..j] == a[i..j] && (a + b)[|a|..] == b
  {
  }

  lemma {:induction false} RegsTextEnd(init: string, last: string, all: string, i: nat, j: nat)
    requires all == init + last && i == |init| && j == |all|
    ensures all[i..j] == last
  {
  }

  lemma {:induction false} RegsTextAt(c: CpuState, g: nat, h: nat)
    requires g < h <= 6
    ensures RegsText(c, h)[End(g)..End(g + 1)] == RegText(c, g)
  {
    var init, last := RegsText(c, h - 1), RegText(c, h - 1);
    if g < h - 1 {
      RegsTextAt(c, g, h - 1);
      assert End(g + 1) <= End(h - 1);
      SliceOfAppend(init, last, End(g), End(g + 1));
    } else {
      RegsTextEnd(init, last, RegsText(c, h), End(g), End(g + 1));
    }
  }

  lemma {:induction false} Split16(lo: Byte, hi: Byte)
    ensures (lo as int + 256 * hi as int) % 256 == lo && (lo as int + 256 * hi as int) / 256 % 256 == hi
  {
  }

  lemma {:induction false} PairPrints(data: string, p: nat, v: Byte)
    requires p + 2 <= |data| && IsHex(data[p]) && IsHex(data[p + 1]) && v == FromHex(data[p], data[p + 1])
    ensures Byte2(v) == Lowered(data)[p..p + 2]
  {
    Byte2OfFromHex(data[p], data[p + 1]);
    var t := Lowered(data);
    assert t[p..p + 2] == [t[p], t[p + 1]];
  }

  lemma {:induction false} PacketPcPrints(data: string, lo: Byte, hi: Byte, pc: int)
    requires |data| == 14 && AllHex(data) && lo == FromHex(data[8], data[9]) && hi == FromHex(data[10], data[11])
    requires pc == lo as int + 256 * hi as int
    ensures Byte2(pc % 256) + Byte2(pc / 256 % 256) == Lowered(data)[8..12]
  {
    PairPrints(data, 8, lo);
    PairPrints(data, 10, hi);
    Split16(lo, hi);
    var t := Lowered(data);
    assert t[8..12] == t[8..10] + t[10..12];
  }

  /** What a packet of hex digits holds for a register prints as those digits in lower case. */
  lemma {:induction false} PacketRegPrints(data: string, c: CpuState, g: nat)
    requires HasGdbRegs(c) && g < 6 && |data| == 14 && AllHex(data) && GdbReg(c, g) == PacketReg(data, g)
    ensures RegText(c, g) == Lowered(data)[End(g)..End(g + 1)]
  {
    var p := End(g);
    var v := FromHex(data[p], data[p + 1]);
    if g == PC_REG {
      PacketPcPrints(data, v, FromHex(data[10], data[11]), c.pc);
    } else {
      PairPrints(data, p, v);
      ModSmall(v, 256);
    }
  }

  /** After `G` with any 14 hex digits, `g` returns those digits, in lower case. */
  lemma {:induction false} WriteRegsThenRead(c: CpuState, data: string)
    requires HasGdbRegs(c) && |data| == 14 && AllHex(data)
    ensures RegsText(WithGdbRegs(c, data, 6), 6) == Lowered(data)
  {
    var r := WithGdbRegs(c, data, 6);
    forall g | 0 <= g < 6
      ensures RegsText(r, 6)[End(g)..End(g + 1)] == Lowered(data)[End(g)..End(g + 1)]
    {
      WriteRegsPrefix(c, data, g, 6);
      PacketRegPrints(data, r, g);
      RegsTextAt(r, g, 6);
    }
    SplitRegs(RegsText(r, 6));
    SplitRegs(Lowered(data));
  }

  lemma {:induction false} SplitRegs(s: string)
    requires |s| == 14
    ensures s == s[End(0)..End(1)] + s[End(1)..End(2)] + s[End(2)..End(3)] + s[End(3)..End(4)] + s[End(4)..End(5)]
                 + s[End(5)..End(6)]
  {
  }

  /** The reply to `g`, register by register. */
  lemma {:induction false} RegsInOrder(c: CpuState)
    requires forall name :: name in {"A", "X", "Y", "SP", "PC", "P"} ==> name in c.regs
    ensures RegsText(c, 6) == Byte2(c.regs["A"] % 256) + Byte2(c.regs["X"] % 256) + Byte2(c.regs["Y"] % 256)
                              + Byte2(c.regs["SP"] % 256) + (Byte2(c.pc % 256) + Byte2(c.pc / 256 % 256))
                              + Byte2(c.regs["P"] % 256)
  {
    assert REGS[0] == "A" && REGS[1] == "X" && REGS[2] == "Y" && REGS[3] == "SP" && REGS[4] == "PC" && REGS[5] == "P";
    SixRegs(c);
  }

  lemma {:induction false} ZeroPrints()
    ensures Byte2(0) == "00"
  {
  }

  lemma {:induction false} NoRegText(c: CpuState, g: nat)
    requires g < 6 && forall h :: 0 <= h < 6 ==> REGS[h] !in c.regs
    ensures RegText(c, g) == if g == 4 then "0000" else "00"
  {
    ZeroPrints();
  }

  lemma {:induction false} SixRegs(c: CpuState)
    ensures RegsText(c, 6) == RegText(c, 0) + RegText(c, 1) + RegText(c, 2) + RegText(c, 3) + RegText(c,
            4) + RegText(c, 5)
  {
    assert "" + RegText(c, 0) == RegText(c, 0);
    assert RegsText(c, 1) == RegText(c, 0);
    assert RegsText(c, 2) == RegsText(c, 1) + RegText(c, 1);
    assert RegsText(c, 3) == RegsText(c, 2) + RegText(c, 2);
    assert RegsText(c, 4) == RegsText(c, 3) + RegText(c, 3);
    assert RegsText(c, 5) == RegsText(c, 4) + RegText(c, 4);
  }

  /** A CPU that lists none of the registers prints zeros, and cannot be set. */
  lemma {:induction false} NoRegs(c: CpuState, data: string)
    requires forall name :: name in {"A", "X", "Y", "SP", "PC", "P"} ==> name !in c.regs
    ensures RegsText(c, 6) == "00" + "00" + "00" + "00" + "0000" + "00" && WithGdbRegs(c, data, 6) == c
  {
    assert REGS[0] == "A" && REGS[1] == "X" && REGS[2] == "Y" && REGS[3] == "SP" && REGS[4] == "PC" && REGS[5] == "P";
    SixRegs(c);
    NoRegText(c, 0);
    NoRegText(c, 1);
    NoRegText(c, 2);
    NoRegText(c, 3);
    NoRegText(c, 4);
    NoRegText(c, 5);
    NoRegsSet(c, data, 6);
  }

  lemma {:induction false} NoRegsSet(c: CpuState, data: string, g: nat)
    requires g <= 6 && forall h :: 0 <= h < 6 ==> REGS[h] !in c.regs
    ensures WithGdbRegs(c, data, g) == c
  {
    if g > 0 {
      NoRegsSet(c, data, g - 1);
      assert REGS[g - 1] !in c.regs;
    }
  }

  lemma {:induction false} GdbRegsAre(c: CpuState)
    requires forall name :: name in {"A", "X", "Y", "SP", "PC", "P"} ==> name in c.regs
    ensures HasGdbRegs(c)
    ensures GdbReg(c, 0) == c.regs["A"] && GdbReg(c, 1) == c.regs["X"] && GdbReg(c, 2) == c.regs["Y"]
    ensures GdbReg(c, 3) == c.regs["SP"] && GdbReg(c, 4) == c.pc && GdbReg(c, 5) == c.regs["P"]
    ensures forall n :: n !in {"A", "X", "Y", "SP", "P"} ==> Untouched(n)
  {
    assert REGS[0] == "A" && REGS[1] == "X" && REGS[2] == "Y" && REGS[3] == "SP" && REGS[4] == "PC" && REGS[5] == "P";
  }

  lemma {:induction false} PacketRegsAre(data: string)
    requires |data| == 14
    ensures PacketReg(data, 0) == FromHex(data[0], data[1]) && PacketReg(data, 1) == FromHex(data[2], data[3])
    ensures PacketReg(data, 2) == FromHex(data[4], data[5]) && PacketReg(data, 3) == FromHex(data[6], data[7])
    ensures PacketReg(data, 4) == FromHex(data[8], data[9]) as int + 256 * FromHex(data[10], data[11]) as int
    ensures PacketReg(data, 5) == FromHex(data[12], data[13])
  {
  }

  lemma {:induction false} AllRegsWritten(c: CpuState, data: string, r: CpuState)
    requires HasGdbRegs(c) && |data| == 14 && r == WithGdbRegs(c, data, 6)
    ensures r.regs.Keys == c.regs.Keys
    ensures forall n :: n in c.regs && Untouched(n) ==> r.regs[n] == c.regs[n]
    ensures forall g :: 0 <= g < 6 ==> GdbReg(r, g) == PacketReg(data, g)
  {
    WriteRegsPrefix(c, data, 0, 6);
    forall g | 0 <= g < 6
      ensures GdbReg(r, g) == PacketReg(data, g)
    {
      WriteRegsPrefix(c, data, g, 6);
    }
  }

  /** The registers after `G` with 14 digits, one by one. */
  lemma {:induction false} RegsFromPacket(c: CpuState, data: string)
    requires forall name :: name in {"A", "X", "Y", "SP", "PC", "P"} ==> name in c.regs
    requires |data| == 14
    ensures var r := WithGdbRegs(c, data, 6);
            && r.regs.Keys == c.regs.Keys
            && r.regs["A"] == FromHex(data[0], data[1]) && r.regs["X"] == FromHex(data[2], data[3])
            && r.regs["Y"] == FromHex(data[4], data[5]) && r.regs["SP"] == FromHex(data[6], data[7])
            && r.pc == FromHex(data[8], data[9]) as int + 256 * FromHex(data[10], data[11]) as int
            && r.regs["P"] == FromHex(data[12], data[13])
            && forall n :: n in c.regs && n !in {"A", "X", "Y", "SP", "P"} ==> r.regs[n] == c.regs[n]
  {
    GdbRegsAre(c);
    PacketRegsAre(data);
    AllRegsWritten(c, data, WithGdbRegs(c, data, 6));
    GdbRegsAre(WithGdbRegs(c, data, 6));
  }

  lemma {:induction false} PacketOfText(c: CpuState, data: string, g: nat)
    requires HasGdbRegs(c) && g < 6 && |data| == 14 && data[End(g)..End(g + 1)] == RegText(c, g)
    ensures if g == PC_REG then PacketReg(data, g) == c.pc % 65536 else PacketReg(data, g) == GdbReg(c, g) % 256
  {
    var p, t := End(g), RegText(c, g);
    assert t[0] == data[p] && t[1] == data[p + 1];
    if g == PC_REG {
      assert t[2] == data[p + 2] && t[3] == data[p + 3];
      FromHexOfByte2(c.pc % 256);
      FromHexOfByte2(c.pc / 256 % 256);
      TwoBytes(c.pc);
    } else {
      FromHexOfByte2(c.Reg(REGS[g]) % 256);
    }
  }

  ghost predicate Fits(c: CpuState, g: nat)
    requires g < 6
  {
    GdbReg(c, g) < if g == PC_REG then 65536 else 256
  }

  lemma {:induction false} Narrow(x: nat)
    ensures (x % 256 == x <==> x < 256) && (x % 65536 == x <==> x < 65536)
  {
  }

  lemma {:induction false} EchoValue(c: CpuState, g: nat)
    requires HasGdbRegs(c) && g < 6
    ensures GdbReg(WithGdbRegs(c, RegsText(c, 6), 6), g) == PacketReg(RegsText(c, 6), g)
  {
    WriteRegsPrefix(c, RegsText(c, 6), g, 6);
  }

  /** `G` with the reply of `g` brings a register back exactly when it fits its place in the packet. */
  lemma {:induction false} EchoReg(c: CpuState, g: nat)
    requires HasGdbRegs(c) && g < 6
    ensures GdbReg(WithGdbRegs(c, RegsText(c, 6), 6), g) == GdbReg(c, g) <==> Fits(c, g)
  {
    EchoValue(c, g);
    RegsTextAt(c, g, 6);
    PacketOfText(c, RegsText(c, 6), g);
    Narrow(GdbReg(c, g));
  }

  lemma {:induction false} SameRegs(c: CpuState, r: CpuState)
    requires HasGdbRegs(c) && r.regs.Keys == c.regs.Keys
    requires forall g :: 0 <= g < 6 ==> GdbReg(r, g) == GdbReg(c, g)
    requires forall n :: n in c.regs && Untouched(n) ==> r.regs[n] == c.regs[n]
    ensures r == c
  {
    assert GdbReg(r, PC_REG) == GdbReg(c, PC_REG);
    forall n | n in c.regs
      ensures r.regs[n] == c.regs[n]
    {
      if n in REGS {
        var g :| 0 <= g < 6 && REGS[g] == n;
        assert GdbReg(r, g) == GdbReg(c, g);
      }
    }
  }

  /** `G` with the reply of `g` changes nothing, exactly when every register fits its place. */
  lemma {:induction false} ReadThenWriteRegs(c: CpuState)
    requires HasGdbRegs(c)
    ensures WithGdbRegs(c, RegsText(c, 6), 6) == c <==> forall g :: 0 <= g < 6 ==> Fits(c, g)
  {
    var data := RegsText(c, 6);
    var r := WithGdbRegs(c, data, 6);
    if r == c {
      forall g | 0 <= g < 6
        ensures Fits(c, g)
      {
        EchoReg(c, g);
      }
    }
    if forall g :: 0 <= g < 6 ==> Fits(c, g) {
      forall g | 0 <= g < 6
        ensures GdbReg(r, g) == GdbReg(c, g)
      {
        EchoReg(c, g);
      }
      WriteRegsPrefix(c, data, 0, 6);
      SameRegs(c, r);
    }
  }
}
