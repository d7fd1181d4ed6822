/** The emulated machine as the debugger front ends see it: plain RAM behind an
    address mask, and a register file.

    An address mask plus one is a power of two, and the powers of two up to
    2^32 are exactly the divisors of 2^32; `addr & addrMask` is then `addr % n`. */
module Machine {
  import opened Modular

  type Byte = x: int | 0 <= x < 256

  const WORD32 := 0x1_0000_0000

  type Word32 = x: int | 0 <= x < WORD32

  /** Number of cells of a bus with up to 31 address bits. */
  predicate BusSize(n: int) {
    0 < n < WORD32 && WORD32 % n == 0
  }

  /** Conversion to `uint32_t`. */
  function Wrap(x: int): Word32 {
    x % WORD32
  }

  /** The contents of some bus. */
  type Memory = m: seq<Byte> | |m| > 0 witness [0]

  /** The cell an offset from a base address maps to. */
  function Cell(base: int, i: int, n: int): (c: nat)
    requires n > 0
    ensures c < n
  {
    (base + i) % n
  }

  function Peek(m: seq<Byte>, addr: int): Byte
    requires |m| > 0
  {
    m[addr % |m|]
  }

  function Poke(m: seq<Byte>, addr: int, v: Byte): (r: seq<Byte>)
    requires |m| > 0
    ensures |r| == |m|
  {
    m[addr % |m| := v]
  }

  /** The bytes read from `len` consecutive addresses. */
  function PeekRange(m: seq<Byte>, addr: int, len: nat): (r: seq<Byte>)
    requires |m| > 0
    ensures |r| == len
  {
    seq<Byte>(len, i => Peek(m, addr + i))
  }

  /** Writes `data` to consecutive addresses, lowest first. */
  function PokeRange(m: seq<Byte>, addr: int, data: seq<Byte>): (r: seq<Byte>)
    requires |m| > 0
    ensures |r| == |m|
  {
    if data == [] then m
    else Poke(PokeRange(m, addr, data[..|data| - 1]), addr + |data| - 1, data[|data| - 1])
  }

  /** One more write in a loop that writes `data` upwards. */
  lemma {:induction false} PokeRangeSnoc(m: seq<Byte>, addr: int, data: seq<Byte>, i: nat)
    requires |m| > 0 && i < |data|
    ensures PokeRange(m, addr, data[..i + 1]) == Poke(PokeRange(m, addr, data[..i]), addr + i, data[i])
  {
    assert data[..i + 1][..i] == data[..i];
  }

  lemma {:induction false} WrapStep(x: int, d: int)
    ensures Wrap(Wrap(x) + d) == Wrap(x + d)
  {
    ModSum(x, d, WORD32);
  }

  /** Masking hides the 32-bit wrap of an address computation. */
  lemma {:induction false} WrapIsInvisible(addr: int, n: int)
    requires BusSize(n)
    ensures Wrap(addr) % n == addr % n
  {
    ModOfMod(addr, WORD32, n);
  }

  /** A wrapped base address reads the same cells. */
  lemma {:induction false} PeekWrapped(m: seq<Byte>, base: int, i: int)
    requires BusSize(|m|)
    ensures Peek(m, Wrap(base) + i) == Peek(m, base + i)
  {
    ModOfMod(base, WORD32, |m|);
    ModSum(Wrap(base), i, |m|);
    ModSum(base, i, |m|);
  }

  /** A range and the one behind it. */
  lemma {:induction false} RangeAppend(m: Memory, addr: Word32, offset: nat, n: nat)
    requires BusSize(|m|)
    ensures PeekRange(m, addr, offset) + PeekRange(m, Wrap(addr + offset), n) == PeekRange(m, addr, offset + n)
  {
    var first, second, all :=
      PeekRange(m, addr, offset), PeekRange(m, Wrap(addr + offset), n), PeekRange(m, addr, offset + n);
    forall i | 0 <= i < n
      ensures second[i] == all[offset + i]
    {
      PeekWrapped(m, addr + offset, i);
    }
    assert all[..offset] == first && all[offset..] == second;
  }

  /** What a block write leaves in every cell, for a block no longer than the memory. */
  lemma {:induction false} PokeRangeCells(m: seq<Byte>, addr: int, data: seq<Byte>, c: nat)
    requires |data| <= |m| && c < |m|
    ensures var i := (c - addr) % |m|;
            PokeRange(m, addr, data)[c] == if i < |data| then data[i] else m[c]
  {
    if data != [] {
      var k := |data| - 1;
      PokeRangeCells(m, addr, data[..k], c);
      CellOffset(addr, k, |m|);
      OffsetOf(addr, c, |m|);
    }
  }

  /** Reading back a written block returns it, when it does not wrap onto itself. */
  lemma {:induction false} PeekAfterPoke(m: seq<Byte>, addr: int, data: seq<Byte>)
    requires 0 < |m| && |data| <= |m|
    ensures PeekRange(PokeRange(m, addr, data), addr, |data|) == data
  {
    forall i | 0 <= i < |data|
      ensures Peek(PokeRange(m, addr, data), addr + i) == data[i]
    {
      PokeRangeCells(m, addr, data, (addr + i) % |m|);
      CellOffset(addr, i, |m|);
    }
  }

  /** Bytes of a block that are bound for one cell agree. */
  ghost predicate Agrees(addr: int, data: seq<Byte>, n: int)
    requires n > 0
  {
    forall j, k :: 0 <= j < |data| && 0 <= k < |data| && Cell(addr, j, n) == Cell(addr, k, n) ==> data[j] == data[k]
  }

  /** A block of any length reads back unchanged when bytes bound for one cell agree. */
  lemma {:induction false} PokeRangeConsistent(m: seq<Byte>, addr: int, data: seq<Byte>, i: nat)
    requires |m| > 0 && i < |data| && Agrees(addr, data, |m|)
    ensures Peek(PokeRange(m, addr, data), addr + i) == data[i]
  {
    var k := |data| - 1;
    if Cell(addr, i, |m|) != Cell(addr, k, |m|) {
      PokeRangeConsistent(m, addr, data[..k], i);
    }
  }

  lemma {:induction false} ReadBytesAgree(r: seq<Byte>, addr: int, data: seq<Byte>)
    requires |r| > 0 && forall i :: 0 <= i < |data| ==> data[i] == r[Cell(addr, i, |r|)]
    ensures Agrees(addr, data, |r|)
  {
  }

  /** Only such a block reads back unchanged; every block that fits the memory is one. */
  lemma {:induction false} PeekAfterPokeExactly(m: seq<Byte>, addr: int, data: seq<Byte>)
    requires |m| > 0
    ensures PeekRange(PokeRange(m, addr, data), addr, |data|) == data <==> Agrees(addr, data, |m|)
    ensures |data| <= |m| ==> Agrees(addr, data, |m|)
  {
    var r := PokeRange(m, addr, data);
    if |data| <= |m| {
      PeekAfterPoke(m, addr, data);
    }
    if PeekRange(r, addr, |data|) == data {
      forall i | 0 <= i < |data|
        ensures data[i] == r[Cell(addr, i, |r|)]
      {
        assert PeekRange(r, addr, |data|)[i] == Peek(r, addr + i);
      }
      ReadBytesAgree(r, addr, data);
    }
    if Agrees(addr, data, |m|) {
      forall i | 0 <= i < |data|
        ensures Peek(r, addr + i) == data[i]
      {
        PokeRangeConsistent(m, addr, data, i);
      }
    }
  }

  /** Inside the memory an address is a cell; addresses behind it start again at its front. */
  lemma {:induction false} InsideIsPlain(m: seq<Byte>, addr: nat, v: Byte)
    requires |m| > 0
    ensures addr < |m| ==> Peek(m, addr) == m[addr] && Poke(m, addr, v) == m[addr := v]
    ensures Peek(m, addr + |m|) == Peek(m, addr)
  {
    if addr < |m| { ModSmall(addr, |m|); }
    ModAddMultiple(addr, 1, |m|);
  }

  lemma {:induction false} ReadIsPlain(m: seq<Byte>, addr: nat, n: nat)
    requires |m| > 0 && addr + n <= |m|
    ensures PeekRange(m, addr, n) == m[addr..addr + n]
  {
    forall i | 0 <= i < n
      ensures PeekRange(m, addr, n)[i] == m[addr..addr + n][i]
    {
      InsideIsPlain(m, addr + i, 0);
    }
  }

  lemma {:induction false} WriteIsPlain(m: seq<Byte>, addr: nat, data: seq<Byte>)
    requires |m| > 0 && addr + |data| <= |m|
    ensures PokeRange(m, addr, data) == m[..addr] + data + m[addr + |data|..]
  {
    if data != [] {
      var init, k := data[..|data| - 1], |data| - 1;
      WriteIsPlain(m, addr, init);
      ModSmall(addr + k, |m|);
      assert data == init + [data[k]];
    } else {
      assert m == m[..addr] + m[addr..];
    }
  }

  /** Cells that no address of the block maps to keep their value. */
  lemma {:induction false} PokeRangeFrame(m: seq<Byte>, addr: int, data: seq<Byte>, c: nat)
    requires c < |m|
    requires forall j :: 0 <= j < |data| ==> Cell(addr, j, |m|) != c
    ensures PokeRange(m, addr, data)[c] == m[c]
  {
    if data != [] {
      assert Cell(addr, |data| - 1, |m|) != c;
      PokeRangeFrame(m, addr, data[..|data| - 1], c);
    }
  }

  /** The bus: 8-bit cells, addresses masked on every access. */
  class Bus {
    const cells: array<Byte>

    constructor (n: int)
      requires BusSize(n)
      ensures Valid() && cells.Length == n && fresh(cells)
      ensures forall c :: 0 <= c < n ==> cells[c] == 0
    {
      cells := new Byte[n](_ => 0);
    }

    ghost predicate Valid() {
      BusSize(cells.Length)
    }

    function Peek8(addr: Word32): (v: Byte)
      requires Valid()
      reads cells
      ensures v == Peek(cells[..], addr)
    {
      cells[addr % cells.Length]
    }

    method Write8(addr: Word32, v: Byte)
      requires Valid()
      modifies cells
      ensures cells[..] == Poke(old(cells[..]), addr, v)
    {
      cells[addr % cells.Length] := v;
    }

    /** `peek8` of a computed address, which wraps like a `uint32_t` first. */
    function PeekAt(addr: int): (v: Byte)
      requires Valid()
      reads cells
      ensures v == Peek(cells[..], addr)
    {
      WrapIsInvisible(addr, cells.Length);
      Peek8(Wrap(addr))
    }

    /** `write8` to a computed address. */
    method WriteAt(addr: int, v: Byte)
      requires Valid()
      modifies cells
      ensures cells[..] == Poke(old(cells[..]), addr, v)
    {
      WrapIsInvisible(addr, cells.Length);
      Write8(Wrap(addr), v);
    }
  }

  /** A register file: the program counter, and the registers the CPU knows by name. */
  datatype CpuState = CpuState(pc: Word32, regs: map<string, Word32>) {

    /** `regRead` by name, for a register that may not exist. */
    function Reg(name: string): Word32 {
      if name in regs then regs[name] else 0
    }

    /** `regWrite` by name; unknown names are skipped. */
    function WithReg(name: string, v: Word32): (c: CpuState)
      ensures c.pc == pc && c.regs.Keys == regs.Keys
    {
      if name in regs then this.(regs := regs[name := v]) else this
    }
  }

  class Cpu {
    var state: CpuState

    constructor (state: CpuState)
      ensures this.state == state
    {
      this.state := state;
    }

    method SetPc(pc: Word32)
      modifies this
      ensures state == old(state).(pc := pc)
    {
      state := state.(pc := pc);
    }

    method RegWrite(name: string, v: Word32)
      modifies this
      ensures state == old(state).WithReg(name, v)
    {
      if name in state.regs {
        state := state.(regs := state.regs[name := v]);
      }
    }
  }
}
