/** The MAP translation of a 16-bit address to a physical one. */
module MapTranslation {
  import opened Machine
  import opened Modular

  /** An offset for each 8K block, a bit mask of enabled blocks, and the megabyte bases of
      the two halves. */
  datatype MapState = MapState(offsets: seq<Word32>, enables: Byte, megabyteLow: Word32, megabyteHigh: Word32) {
    predicate Valid() {
      |offsets| == 8
    }
  }

  function Pow2(k: nat): (p: int)
    ensures p > 0
  {
    if k == 0 then 1 else 2 * Pow2(k - 1)
  }

  /** `enables & (1 << block)` */
  predicate Enabled(ms: MapState, block: nat) {
    (ms.enables / Pow2(block)) % 2 == 1
  }

  /** `(vaddr >> 13) & 7` */
  function Block(vaddr: Word32): (b: nat)
    ensures b < 8
  {
    (vaddr / 0x2000) % 8
  }

  function Megabyte(ms: MapState, block: nat): Word32 {
    if block < 4 then ms.megabyteLow else ms.megabyteHigh
  }

  function ResolvePhysical(ms: MapState, addr: Word32): Word32
    requires ms.Valid()
  {
    var vaddr := addr % 0x1_0000;
    var block := Block(vaddr);
    if Enabled(ms, block) then
      var offset := ms.offsets[block] % 0x10_0000;
      var offsetHigh12 := (offset / 0x100) % 0x1000;
      var vaddrHigh := (vaddr / 0x100) % 0x100;
      var sum12bit := (offsetHigh12 + vaddrHigh) % 0x1000;
      var vaddrLow8 := vaddr % 0x100;
      Wrap(Megabyte(ms, block) + (sum12bit * 0x100 + vaddrLow8))
    else vaddr
  }

  /** The offset with its low 8 bits and everything above bit 19 cleared. */
  function Shift(ms: MapState, block: nat): (d: nat)
    requires ms.Valid() && block < 8
    ensures d < 0x10_0000 && d % 0x100 == 0
  {
    ms.offsets[block] % 0x10_0000 / 0x100 * 0x100
  }

  /** An enabled address moved by its block's offset. */
  function Moved(ms: MapState, vaddr: nat): nat
    requires ms.Valid() && vaddr < 0x1_0000
  {
    vaddr + Shift(ms, Block(vaddr))
  }

  lemma {:induction false} CutLowBits(offset: nat, vaddr: nat)
    requires offset < 0x10_0000 && vaddr < 0x1_0000
    ensures (offset / 0x100 % 0x1000 + vaddr / 0x100 % 0x100) % 0x1000 * 0x100 + vaddr % 0x100
            == (vaddr + offset / 0x100 * 0x100) % 0x10_0000
  {
    var a, b := offset / 0x100, vaddr / 0x100;
    ModUnique(vaddr + a * 0x100, (a + b) / 0x1000, (a + b) % 0x1000 * 0x100 + vaddr % 0x100, 0x10_0000);
  }

  /** The shifts and masks compute one addition modulo a megabyte; disabled blocks are not moved. */
  lemma {:induction false} ResolveIs(ms: MapState, addr: Word32)
    requires ms.Valid()
    ensures var vaddr := addr % 0x1_0000;
            ResolvePhysical(ms, addr) ==
            if Enabled(ms, Block(vaddr)) then Wrap(Megabyte(ms, Block(vaddr)) + Moved(ms, vaddr) % 0x10_0000) else vaddr
  {
    var vaddr := addr % 0x1_0000;
    CutLowBits(ms.offsets[Block(vaddr)] % 0x10_0000, vaddr);
  }

  lemma {:induction false} LowByte(base: int, x: int, s: int, addr: int)
    requires x == addr % 0x1_0000 && s % 0x100 == 0
    ensures Wrap(base + (x + s) % 0x10_0000) % 0x100 == addr % 0x100 <==> base % 0x100 == 0
  {
    var p := (x + s) % 0x10_0000;
    ModOfMod(base + p, WORD32, 0x100);
    ModOfMod(x + s, 0x10_0000, 0x100);
    ModOfMod(addr, 0x1_0000, 0x100);
    ModSum(s, x, 0x100);
    ModSum(p, base, 0x100);
    ModSum(x, base, 0x100);
    ModEqual(base + x, x, 0x100);
  }

  /** An enabled address keeps its low 8 bits exactly if the megabyte base has none. */
  lemma {:induction false} LowBitsKeptExactly(ms: MapState, addr: Word32)
    requires ms.Valid() && Enabled(ms, Block(addr % 0x1_0000))
    ensures ResolvePhysical(ms, addr) % 0x100 == addr % 0x100 <==> Megabyte(ms, Block(addr % 0x1_0000)) % 0x100 == 0
  {
    var vaddr := addr % 0x1_0000;
    ResolveIs(ms, addr);
    LowByte(Megabyte(ms, Block(vaddr)), vaddr, Shift(ms, Block(vaddr)), addr);
  }

  /** The result lies in the selected megabyte exactly if the 32-bit sum does not wrap. */
  lemma {:induction false} InMegabyteExactly(ms: MapState, addr: Word32)
    requires ms.Valid() && Enabled(ms, Block(addr % 0x1_0000))
    ensures var base, inside := Megabyte(ms, Block(addr % 0x1_0000)), Moved(ms, addr % 0x1_0000) % 0x10_0000;
            base <= ResolvePhysical(ms, addr) < base + 0x10_0000 <==> base + inside < WORD32
  {
    ResolveIs(ms, addr);
    WrapBelow(Megabyte(ms, Block(addr % 0x1_0000)), Moved(ms, addr % 0x1_0000) % 0x10_0000);
  }

  lemma {:induction false} WrapBelow(base: Word32, p: nat)
    requires p < 0x10_0000
    ensures base <= Wrap(base + p) < base + 0x10_0000 <==> base + p < WORD32
  {
    if base + p < WORD32 {
      ModUnique(base + p, 0, base + p, WORD32);
    } else {
      ModUnique(base + p, 1, base + p - WORD32, WORD32);
    }
  }

  lemma {:induction false} WrapApart(base: Word32, p: nat, q: nat)
    requires p < 0x10_0000 && q < 0x10_0000
    ensures Wrap(base + p) == Wrap(base + q) <==> p == q
  {
    ModEqual(base + p, base + q, WORD32);
    if p > q {
      ModUnique(p - q, 0, p - q, WORD32);
    } else if p < q {
      ModUnique(p - q, -1, p - q + WORD32, WORD32);
    }
  }

  lemma {:induction false} Collide(base: Word32, a: int, b: int)
    ensures Wrap(base + a % 0x10_0000) == Wrap(base + b % 0x10_0000) <==> (a - b) % 0x10_0000 == 0
  {
    WrapApart(base, a % 0x10_0000, b % 0x10_0000);
    ModEqual(a, b, 0x10_0000);
  }

  lemma {:induction false} ResolveVirtual(ms: MapState, v: nat)
    requires ms.Valid() && v < 0x1_0000 && Enabled(ms, Block(v))
    ensures ResolvePhysical(ms, v) == Wrap(Megabyte(ms, Block(v)) + Moved(ms, v) % 0x10_0000)
  {
    ModUnique(v, 0, v, 0x1_0000);
    ResolveIs(ms, v);
  }

  /** Two enabled addresses with the same megabyte base collide exactly if, moved by their
      offsets, they agree modulo a megabyte. */
  lemma {:induction false} AliasExactly(ms: MapState, v: nat, w: nat)
    requires ms.Valid() && v < 0x1_0000 && w < 0x1_0000
    requires Enabled(ms, Block(v)) && Enabled(ms, Block(w)) && Megabyte(ms, Block(v)) == Megabyte(ms, Block(w))
    ensures ResolvePhysical(ms, v) == ResolvePhysical(ms, w) <==> (Moved(ms, v) - Moved(ms, w)) % 0x10_0000 == 0
  {
    ResolveVirtual(ms, v);
    ResolveVirtual(ms, w);
    Collide(Megabyte(ms, Block(v)), Moved(ms, v), Moved(ms, w));
  }

  lemma {:induction false} Apart(a: int, b: int)
    requires -0x10_0000 < a - b < 0x10_0000
    ensures (a - b) % 0x10_0000 == 0 <==> a == b
  {
    if a > b {
      ModUnique(a - b, 0, a - b, 0x10_0000);
    } else if a < b {
      ModUnique(a - b, -1, a - b + 0x10_0000, 0x10_0000);
    }
  }

  /** Enabled blocks of one half whose offsets agree above the low byte never collide. */
  lemma {:induction false} InjectiveInHalf(ms: MapState, v: nat, w: nat)
    requires ms.Valid() && v < 0x1_0000 && w < 0x1_0000
    requires Enabled(ms, Block(v)) && Enabled(ms, Block(w)) && (Block(v) < 4 <==> Block(w) < 4)
    requires Shift(ms, Block(v)) == Shift(ms, Block(w))
    ensures ResolvePhysical(ms, v) == ResolvePhysical(ms, w) <==> v == w
  {
    AliasExactly(ms, v, w);
    Apart(Moved(ms, v), Moved(ms, w));
  }

  // ---- What the state moves ----

  /** The value of each block's bit. */
  const BITS: seq<Byte> := [1, 2, 4, 8, 16, 32, 64, 128]

  lemma {:induction false} BitsAre(b: nat)
    requires b < 8
    ensures Pow2(b) == BITS[b]
  {
    assert Pow2(0) == 1 && Pow2(1) == 2 && Pow2(2) == 4 && Pow2(3) == 8;
    assert Pow2(4) == 16 && Pow2(5) == 32 && Pow2(6) == 64 && Pow2(7) == 128;
  }

  lemma {:induction false} BlockIs(v: nat, b: nat)
    requires b < 8 && b * 0x2000 <= v < (b + 1) * 0x2000
    ensures Block(v) == b
  {
  }

  /** Where block `b` of the address space goes if it is moved. */
  function Shifted(ms: MapState, v: nat, b: nat): Word32
    requires ms.Valid() && b < 8
  {
    Wrap((if v < 0x8000 then ms.megabyteLow
      else ms.megabyteHigh) + (v + ms.offsets[b] % 0x10_0000 / 0x100 * 0x100) % 0x10_0000)
  }

  /** An address of block `b` is moved if its bit is set, and left alone otherwise. */
  lemma {:induction false} ResolveInBlock(ms: MapState, v: nat, b: nat)
    requires ms.Valid() && b < 8 && b * 0x2000 <= v < (b + 1) * 0x2000
    ensures ResolvePhysical(ms, v) == if ms.enables / BITS[b] % 2 == 1 then Shifted(ms, v, b) else v
  {
    BlockIs(v, b);
    BitsAre(b);
    ModSmall(v, 0x1_0000);
    ResolveIs(ms, v);
  }

  /** With no bit set every 16-bit address stays; with all of them every one is moved. */
  lemma {:induction false} NoneOrAll(ms: MapState, v: nat)
    requires ms.Valid() && v < 0x1_0000
    ensures ms.enables == 0 ==> ResolvePhysical(ms, v) == v
    ensures ms.enables == 255 ==>
              ResolvePhysical(ms, v) ==
              Wrap((if v < 0x8000 then ms.megabyteLow else ms.megabyteHigh)
                   + (v + ms.offsets[v / 0x2000] % 0x10_0000 / 0x100 * 0x100) % 0x10_0000)
  {
    var b := v / 0x2000;
    ResolveInBlock(ms, v, b);
    AllBits(b);
  }

  lemma {:induction false} AllBits(b: nat)
    requires b < 8
    ensures 255 / BITS[b] % 2 == 1 && 0 / BITS[b] % 2 == 0
  {
  }

  lemma {:induction false} Pow2Sum(a: nat, b: nat)
    ensures Pow2(a + b) == Pow2(a) * Pow2(b)
  {
    if a > 0 {
      Pow2Sum(a - 1, b);
    }
  }

  lemma {:induction false} BitSet(e: nat, p: nat)
    requires p > 0 && e / p % 2 == 0
    ensures (e + p) / p % 2 == 1
  {
    DivMod(e, p);
    DivUnique(e + p, e / p + 1, e % p, p);
  }

  lemma {:induction false} BitBelow(e: nat, p: nat, q: nat, k: nat)
    requires q > 0 && p == 2 * k * q
    ensures (e + p) / q % 2 == e / q % 2
  {
    DivMod(e, q);
    DivUnique(e + p, e / q + 2 * k, e % q, q);
  }

  lemma {:induction false} Regroup(u: nat, k: nat, v: nat, w: nat, p: nat)
    requires u == k * v + w
    ensures u * p == v * (k * p) + w * p
  {
  }

  lemma {:induction false} Below(w: nat, k: nat, p: nat)
    requires w < k
    ensures w * p + p <= k * p
    decreases k
  {
    assert k * p == (k - 1) * p + p;
    if w < k - 1 {
      Below(w, k - 1, p);
    }
  }

  lemma {:induction false} BitAbove(e: nat, p: nat, q: nat, k: nat)
    requires p > 0 && k > 0 && q == k * (2 * p) && e / p % 2 == 0
    ensures (e + p) / q == e / q
  {
    var u, r := e / p / 2, e % p;
    var v, w := u / k, u % k;
    DivMod(e, p);
    DivMod(u, k);
    assert e == u * (2 * p) + r;
    Regroup(u, k, v, w, 2 * p);
    Below(w, k, 2 * p);
    DivUnique(e, v, w * (2 * p) + r, q);
    DivUnique(e + p, v, w * (2 * p) + r + p, q);
  }

  /** Setting one more bit of a mask changes no other one. */
  lemma {:induction false} OtherBits(enables: nat, b: nat, c: nat)
    requires b < 8 && c < 8 && enables / BITS[b] % 2 == 0
    ensures (enables + BITS[b]) / BITS[c] % 2 == if c == b then 1 else enables / BITS[c] % 2
  {
    BitsAre(b);
    BitsAre(c);
    if c == b {
      BitSet(enables, Pow2(b));
    } else if c < b {
      Pow2Sum(b - c - 1, c + 1);
      BitBelow(enables, Pow2(b), Pow2(c), Pow2(b - c - 1));
    } else {
      Pow2Sum(c - b - 1, b + 1);
      BitAbove(enables, Pow2(b), Pow2(c), Pow2(c - b - 1));
    }
  }

  lemma {:induction false} ResolveByBit(ms: MapState, v: nat, b: nat, bit: nat)
    requires ms.Valid() && b < 8 && b * 0x2000 <= v < (b + 1) * 0x2000 && bit == ms.enables / BITS[b] % 2
    ensures ResolvePhysical(ms, v) == if bit == 1 then Shifted(ms, v, b) else v
  {
    ResolveInBlock(ms, v, b);
  }

  lemma {:induction false} SameShift(ms: MapState, enables: Byte, v: nat, b: nat)
    requires ms.Valid() && b < 8
    ensures Shifted(ms.(enables := enables), v, b) == Shifted(ms, v, b)
  {
  }

  /** Setting the bit of block `b` moves exactly the 8K addresses of that block. */
  lemma {:induction false} OneMoreBlock(ms: MapState, b: nat, v: nat, ms': MapState)
    requires ms.Valid() && v < 0x1_0000 && b < 8 && ms.enables / BITS[b] % 2 == 0 && ms.enables + BITS[b] < 256
    requires ms' == ms.(enables := ms.enables + BITS[b])
    ensures if b * 0x2000 <= v < (b + 1) * 0x2000 then
              ResolvePhysical(ms, v) == v && ResolvePhysical(ms', v) == Shifted(ms, v, b)
            else ResolvePhysical(ms', v) == ResolvePhysical(ms, v)
  {
    var c := v / 0x2000;
    OtherBits(ms.enables, b, c);
    SameShift(ms, ms.enables + BITS[b], v, c);
    ResolveByBit(ms, v, c, ms.enables / BITS[c] % 2);
    ResolveByBit(ms', v, c, ms'.enables / BITS[c] % 2);
  }

  /** The lower half does not depend on the base of the upper one, and the other way round. */
  lemma {:induction false} HalvesApart(ms: MapState, v: nat, base: Word32)
    requires ms.Valid() && v < 0x1_0000
    ensures v < 0x8000 ==> ResolvePhysical(ms.(megabyteHigh := base), v) == ResolvePhysical(ms, v)
    ensures v >= 0x8000 ==> ResolvePhysical(ms.(megabyteLow := base), v) == ResolvePhysical(ms, v)
  {
    ResolveInBlock(ms, v, v / 0x2000);
    ResolveInBlock(ms.(megabyteHigh := base), v, v / 0x2000);
    ResolveInBlock(ms.(megabyteLow := base), v, v / 0x2000);
  }
}
