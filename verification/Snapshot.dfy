/** VICE snapshot files: the module walk of the loader, the saver, and how they fit together. */
module Snapshot {
  import opened Modular
  import opened Machine

  const FILE_HEADER := 40
  const MODULE_HEADER := 24
  const RAM_BYTES := 65536

  /** The machine as a snapshot sees it. */
  datatype State = State(cpu: CpuState, mem: seq<Byte>)

  datatype Outcome = Ok | TooSmall | BadMagic | ModuleExceedsFile | CpuTooSmall | RamHeaderIncomplete

  // ---- Little-endian fields and C strings ----

  function LE16(v: int): (r: seq<Byte>)
    ensures |r| == 2
  {
    [v % 256, v / 256 % 256]
  }

  function LE32(v: int): (r: seq<Byte>)
    ensures |r| == 4
  {
    [v % 256, v / 256 % 256, v / 256 / 256 % 256, v / 256 / 256 / 256 % 256]
  }

  function ReadU16(d: seq<Byte>, i: nat): Word32
    requires i + 2 <= |d|
  {
    (d[i] as int) + 256 * (d[i + 1] as int)
  }

  function ReadU32(d: seq<Byte>, i: nat): Word32
    requires i + 4 <= |d|
  {
    (d[i] as int) + 256 * (d[i + 1] as int) + 65536 * (d[i + 2] as int) + 16777216 * (d[i + 3] as int)
  }

  lemma {:induction false} ReadLE16(d: seq<Byte>, i: nat, v: int)
    requires i + 2 <= |d| && d[i..i + 2] == LE16(v)
    ensures ReadU16(d, i) == v % 65536
  {
    assert d[i] == d[i..i + 2][0] && d[i + 1] == d[i..i + 2][1];
    TwoBytes(v);
  }

  lemma {:induction false} ReadLE32(d: seq<Byte>, i: nat, v: Word32)
    requires i + 4 <= |d| && d[i..i + 4] == LE32(v)
    ensures ReadU32(d, i) == v
  {
    assert d[i] == d[i..i + 4][0] && d[i + 1] == d[i..i + 4][1];
    assert d[i + 2] == d[i..i + 4][2] && d[i + 3] == d[i..i + 4][3];
    var v1, v2, v3 := v / 256, v / 256 / 256, v / 256 / 256 / 256;
    assert v == 256 * v1 + v % 256 && v1 == 256 * v2 + v1 % 256 && v2 == 256 * v3 + v2 % 256 && v3 % 256 == v3;
  }

  /** The characters of a NUL-terminated name. */
  function CString(s: seq<Byte>): seq<Byte> {
    if s == [] || s[0] == 0 then [] else [s[0]] + CString(s[1..])
  }

  function ZeroBytes(n: nat): (r: seq<Byte>)
    ensures |r| == n
  {
    seq<Byte>(n, _ => 0)
  }

  /** `strncpy` of at most 15 characters into a zeroed 16-byte field. */
  function Field(s: seq<Byte>): (r: seq<Byte>)
    ensures |r| == 16
  {
    var t := CString(s);
    if |t| <= 15 then t + ZeroBytes(16 - |t|) else t[..15] + [0]
  }

  const MAGIC: seq<Byte> := [0x56, 0x49, 0x43, 0x45, 0x20, 0x53, 0x6E, 0x61, 0x70, 0x73, 0x68, 0x6F, 0x74]

  const CPU_NAME: seq<Byte> := [0x43, 0x50, 0x55]

  const RAM_NAME: seq<Byte> := [0x52, 0x41, 0x4D]

  /** A NUL-terminated field spells `name`. */
  predicate NameIs(field: seq<Byte>, name: seq<Byte>) {
    |name| < |field| && field[..|name|] == name && field[|name|] == 0
  }

  // ---- Loading ----

  /** `loadCpuModule` */
  function CpuApplied(data: seq<Byte>, c: CpuState): CpuState
    requires |data| >= 7
  {
    c.(pc := ReadU16(data, 0)).WithReg("A", data[2]).WithReg("X", data[3]).WithReg("Y", data[4])
    .WithReg("P", data[6]).WithReg("SP", data[5])
  }

  /** The bytes `loadRamModule` writes from address 0 up: no more than it was told, nor than it has. */
  function RamWritten(data: seq<Byte>): seq<Byte>
    requires |data| >= 4
  {
    var size := ReadU32(data, 0);
    if size <= |data| - 4 then data[4..4 + size] else data[4..]
  }

  /** One module; unknown and device modules have no effect. */
  function ApplyModule(name: seq<Byte>, data: seq<Byte>, s: State): (r: (Outcome, State))
    requires |s.mem| > 0
    ensures |r.1.mem| == |s.mem|
  {
    if NameIs(name, CPU_NAME) then
      if |data| < 7 then (CpuTooSmall, s) else (Ok, s.(cpu := CpuApplied(data, s.cpu)))
    else if NameIs(name, RAM_NAME) then
      if |data| < 4 then (RamHeaderIncomplete, s) else (Ok, s.(mem := PokeRange(s.mem, 0, RamWritten(data))))
    else (Ok, s)
  }

  /** The module walk over what is left of the file. */
  function LoadModules(rest: seq<Byte>, s: State): (r: (Outcome, State))
    requires |s.mem| > 0
    ensures |r.1.mem| == |s.mem|
    decreases |rest|
  {
    if |rest| < MODULE_HEADER then (Ok, s)
    else
      var end := MODULE_HEADER + ReadU32(rest, 20);
      if end > |rest| then (ModuleExceedsFile, s)
      else
        var (o, s') := ApplyModule(rest[..16], rest[MODULE_HEADER..end], s);
        if o != Ok then (o, s') else LoadModules(rest[end..], s')
  }

  function Load(file: seq<Byte>, s: State): (r: (Outcome, State))
    requires |s.mem| > 0
    ensures |r.1.mem| == |s.mem|
  {
    if |file| < FILE_HEADER then (TooSmall, s)
    else if !NameIs(file[..16], MAGIC) then (BadMagic, s)
    else LoadModules(file[FILE_HEADER..], s)
  }

  ghost function StateOf(cpu: Cpu, bus: Bus): State
    reads cpu, bus.cells
  {
    State(cpu.state, bus.cells[..])
  }

  method LoadCpuModule(data: seq<Byte>, cpu: Cpu) returns (o: Outcome)
    modifies cpu
    ensures o == if |data| < 7 then CpuTooSmall else Ok
    ensures cpu.state == if |data| < 7 then old(cpu.state) else CpuApplied(data, old(cpu.state))
  {
    if |data| < 7 { return CpuTooSmall; }
    cpu.SetPc(ReadU16(data, 0));
    cpu.RegWrite("A", data[2]);
    cpu.RegWrite("X", data[3]);
    cpu.RegWrite("Y", data[4]);
    cpu.RegWrite("P", data[6]);
    cpu.RegWrite("SP", data[5]);
    return Ok;
  }

  method LoadRamModule(data: seq<Byte>, bus: Bus) returns (o: Outcome)
    requires bus.Valid()
    modifies bus.cells
    ensures o == if |data| < 4 then RamHeaderIncomplete else Ok
    ensures bus.cells[..] == if |data| < 4 then old(bus.cells[..])
                             else PokeRange(old(bus.cells[..]), 0, RamWritten(data))
  {
    if |data| < 4 { return RamHeaderIncomplete; }
    var ramSize := ReadU32(data, 0);
    var dataSize := |data| - 4;
    var count := if ramSize <= dataSize then ramSize else dataSize;
    ghost var m, w := bus.cells[..], RamWritten(data);
    for i := 0 to count
      invariant bus.cells[..] == PokeRange(m, 0, w[..i])
    {
      PokeRangeSnoc(m, 0, w, i);
      bus.WriteAt(i, data[4 + i]);
    }
    assert w[..count] == w;
    return Ok;
  }

  method LoadFile(file: seq<Byte>, cpu: Cpu, bus: Bus) returns (o: Outcome)
    requires bus.Valid()
    modifies cpu, bus.cells
    ensures (o, StateOf(cpu, bus)) == Load(file, old(StateOf(cpu, bus)))
  {
    if |file| < FILE_HEADER { return TooSmall; }
    if !NameIs(file[..16], MAGIC) { return BadMagic; }
    ghost var start := StateOf(cpu, bus);
    var pos := FILE_HEADER;
    while pos < |file|
      invariant FILE_HEADER <= pos <= |file|
      invariant LoadModules(file[pos..], StateOf(cpu, bus)) == LoadModules(file[FILE_HEADER..], start)
      decreases |file| - pos
    {
      ghost var rest := file[pos..];
      if |file| - pos < MODULE_HEADER { break; }
      var name := file[pos..pos + 16];
      var length := ReadU32(file, pos + 20);
      assert rest[..16] == name && ReadU32(rest, 20) == length;
      pos := pos + MODULE_HEADER;
      if pos + length > |file| { return ModuleExceedsFile; }
      var data := file[pos..pos + length];
      assert rest[MODULE_HEADER..MODULE_HEADER + length] == data;
      pos := pos + length;
      assert rest[MODULE_HEADER + length..] == file[pos..];
      if NameIs(name, CPU_NAME) {
        o := LoadCpuModule(data, cpu);
        if o != Ok { return; }
      } else if NameIs(name, RAM_NAME) {
        o := LoadRamModule(data, bus);
        if o != Ok { return; }
      }
    }
    return Ok;
  }

  // ---- What a module does, byte by byte ----

  /** A name field of 16 bytes with the given characters and a NUL behind them. */
  predicate Spells(name: seq<Byte>, a: Byte, b: Byte, c: Byte) {
    |name| == 16 && name[0] == a && name[1] == b && name[2] == c && name[3] == 0
  }

  /** A CPU module sets the program counter and five registers, from its first seven bytes. */
  lemma {:induction false} CpuModuleTells(name: seq<Byte>, data: seq<Byte>, s: State)
    requires Spells(name, 0x43, 0x50, 0x55) && |s.mem| > 0
    ensures var (o, t) := ApplyModule(name, data, s);
            if |data| < 7 then o == CpuTooSmall && t == s
            else
              && o == Ok && t.mem == s.mem && t.cpu.pc == data[0] as int + 256 * data[1] as int
              && t.cpu.regs.Keys == s.cpu.regs.Keys
              && forall n :: n in t.cpu.regs ==>
                   t.cpu.regs[n] == match n
                                    case "A" => data[2]
                                    case "X" => data[3]
                                    case "Y" => data[4]
                                    case "SP" => data[5]
                                    case "P" => data[6]
                                    case _ => s.cpu.regs[n]
  {
    assert name[..3] == CPU_NAME;
  }

  lemma {:induction false} AnnouncedSize(n: Word32, body: seq<Byte>, data: seq<Byte>)
    requires data == LE32(n) + body
    ensures ReadU32(data, 0) == n && data[4..] == body
  {
    assert data[0..4] == LE32(n);
    ReadLE32(data, 0, n);
  }

  /** A RAM module writes its bytes from address 0 up, and no more than its first field says. */
  lemma {:induction false} RamModuleTells(name: seq<Byte>, n: Word32, body: seq<Byte>, s: State)
    requires Spells(name, 0x52, 0x41, 0x4D) && |s.mem| > 0
    ensures ApplyModule(name, LE32(n) + body, s)
            == (Ok, s.(mem := PokeRange(s.mem, 0, if n <= |body| then body[..n] else body)))
  {
    var data := LE32(n) + body;
    AnnouncedSize(n, body, data);
    assert name[..3] == RAM_NAME;
    if n <= |body| { assert data[4..4 + n] == body[..n]; }
  }

  /** A module of any other name does nothing. */
  lemma {:induction false} OtherModules(name: seq<Byte>, data: seq<Byte>, s: State)
    requires |name| == 16 && |s.mem| > 0 && !Spells(name, 0x43, 0x50, 0x55) && !Spells(name, 0x52, 0x41, 0x4D)
    ensures ApplyModule(name, data, s) == (Ok, s)
  {
    assert name[..3] == [name[0], name[1], name[2]];
  }

  // ---- Well-formed files, cut anywhere ----

  datatype Module = Module(name: seq<Byte>, version: Word32, data: seq<Byte>) {

    /** A 16-byte name, a length that fits its field, and no short CPU or RAM payload. */
    ghost predicate WellFormed() {
      && |name| == 16 && |data| < WORD32
      && (NameIs(name, CPU_NAME) ==> |data| >= 7)
      && (NameIs(name, RAM_NAME) ==> |data| >= 4)
    }

    function Size(): nat {
      MODULE_HEADER + |data|
    }

    function Encode(): (r: seq<Byte>)
      requires |name| == 16
      ensures |r| == Size()
    {
      name + LE32(version) + LE32(|data|) + data
    }
  }

  ghost predicate AllWellFormed(ms: seq<Module>) {
    forall m :: m in ms ==> m.WellFormed()
  }

  function EncodeAll(ms: seq<Module>): seq<Byte>
    requires forall m :: m in ms ==> |m.name| == 16
  {
    if ms == [] then [] else ms[0].Encode() + EncodeAll(ms[1..])
  }

  /** The effect of loading modules one after the other. */
  function Effects(ms: seq<Module>, s: State): (r: State)
    requires |s.mem| > 0
    ensures |r.mem| == |s.mem|
  {
    if ms == [] then s else Effects(ms[1..], ApplyModule(ms[0].name, ms[0].data, s).1)
  }

  /** Bytes taken by the first `k` modules. */
  function Used(ms: seq<Module>, k: nat): nat
    requires k <= |ms|
  {
    if k == 0 then 0 else ms[0].Size() + Used(ms[1..], k - 1)
  }

  /** How many modules lie wholly within the first `c` bytes. */
  function Whole(ms: seq<Module>, c: nat): (k: nat)
    ensures k <= |ms|
  {
    if ms == [] || c < ms[0].Size() then 0 else 1 + Whole(ms[1..], c - ms[0].Size())
  }

  /** How many of the first `c` bytes lie behind the modules wholly within them. */
  function Leftover(ms: seq<Module>, c: nat): nat {
    if ms == [] || c < ms[0].Size() then c else Leftover(ms[1..], c - ms[0].Size())
  }

  lemma {:induction false} LeftoverIs(ms: seq<Module>, c: nat)
    ensures Leftover(ms, c) == c - Used(ms, Whole(ms, c))
  {
    if ms != [] && c >= ms[0].Size() {
      LeftoverIs(ms[1..], c - ms[0].Size());
    }
  }

  lemma {:induction false} WholeIsLargest(ms: seq<Module>, c: nat)
    ensures Used(ms, Whole(ms, c)) <= c
    ensures Whole(ms, c) < |ms| ==> c < Used(ms, Whole(ms, c) + 1)
  {
    if ms != [] && c >= ms[0].Size() {
      WholeIsLargest(ms[1..], c - ms[0].Size());
    }
  }

  lemma {:induction false} UsedGrows(ms: seq<Module>, j: nat, k: nat)
    requires j <= k <= |ms|
    ensures Used(ms, j) <= Used(ms, k)
    ensures j < k ==> Used(ms, j) + MODULE_HEADER <= Used(ms, k)
  {
    if j > 0 {
      UsedGrows(ms[1..], j - 1, k - 1);
    }
  }

  /** The fields of a module's header, and its payload, as the loader reads them. */
  lemma {:induction false} ReadHeader(m: Module, rest: seq<Byte>)
    requires |m.name| == 16 && |m.data| < WORD32
    ensures var file := m.Encode() + rest;
            && file[..16] == m.name && ReadU32(file, 20) == |m.data|
            && file[MODULE_HEADER..m.Size()] == m.data && file[m.Size()..] == rest
  {
    var file := m.Encode() + rest;
    assert file[20..24] == LE32(|m.data|);
    ReadLE32(file, 20, |m.data|);
  }

  /** The length field survives any cut behind it. */
  lemma {:induction false} ReadCutHeader(m: Module, rest: seq<Byte>, c: nat)
    requires |m.name| == 16 && |m.data| < WORD32 && MODULE_HEADER <= c <= |m.Encode() + rest|
    ensures ReadU32((m.Encode() + rest)[..c], 20) == |m.data|
  {
    ReadHeader(m, rest);
  }

  /** A whole module in front is applied and stepped over. */
  lemma {:induction false} LoadWhole(m: Module, rest: seq<Byte>, s: State)
    requires m.WellFormed() && |s.mem| > 0
    ensures LoadModules(m.Encode() + rest, s) == LoadModules(rest, ApplyModule(m.name, m.data, s).1)
  {
    ReadHeader(m, rest);
  }

  /** A module cut behind its header stops the load. */
  lemma {:induction false} LoadCut(m: Module, rest: seq<Byte>, c: nat, s: State)
    requires m.WellFormed() && |s.mem| > 0 && MODULE_HEADER <= c < m.Size()
    ensures LoadModules((m.Encode() + rest)[..c], s) == (ModuleExceedsFile, s)
  {
    ReadCutHeader(m, rest, c);
  }

  /** What a load of the first `c` bytes of a module list comes to. */
  ghost function CutLoad(ms: seq<Module>, c: nat, s: State): (Outcome, State)
    requires |s.mem| > 0
  {
    (if Leftover(ms, c) >= MODULE_HEADER then ModuleExceedsFile else Ok, Effects(ms[..Whole(ms, c)], s))
  }

  lemma {:induction false} CutLoadShort(ms: seq<Module>, c: nat, s: State)
    requires |s.mem| > 0 && (ms == [] || c < ms[0].Size())
    ensures CutLoad(ms, c, s) == (if c >= MODULE_HEADER then ModuleExceedsFile else Ok, s)
  {
    assert ms[..0] == [];
  }

  lemma {:induction false} CutLoadStep(ms: seq<Module>, c: nat, s: State)
    requires |s.mem| > 0 && ms != [] && c >= ms[0].Size()
    ensures CutLoad(ms, c, s) == CutLoad(ms[1..], c - ms[0].Size(), ApplyModule(ms[0].name, ms[0].data, s).1)
  {
    var k := Whole(ms, c);
    assert ms[..k][1..] == ms[1..][..k - 1] && ms[..k][0] == ms[0];
  }

  lemma {:induction false} EncodeAllStep(ms: seq<Module>)
    requires AllWellFormed(ms) && ms != []
    ensures ms[0].WellFormed() && AllWellFormed(ms[1..])
    ensures EncodeAll(ms) == ms[0].Encode() + EncodeAll(ms[1..])
  {
    assert ms[0] in ms && forall x :: x in ms[1..] ==> x in ms;
  }

  lemma {:induction false} LoadShort(file: seq<Byte>, s: State)
    requires |s.mem| > 0 && |file| < MODULE_HEADER
    ensures LoadModules(file, s) == (Ok, s)
  {
  }

  lemma {:induction false} LoadFirst(m: Module, rest: seq<Byte>, file: seq<Byte>, s: State)
    requires m.WellFormed() && |s.mem| > 0 && file == m.Encode() + rest
    ensures LoadModules(file, s) == LoadModules(rest, ApplyModule(m.name, m.data, s).1)
  {
    LoadWhole(m, rest, s);
  }

  /** Loading the first `c` bytes of a module list applies the modules that are wholly
      there, and fails exactly when the cut leaves a header without its whole payload. */
  lemma {:induction false} CutModules(ms: seq<Module>, c: nat, s: State)
    requires AllWellFormed(ms) && c <= |EncodeAll(ms)| && |s.mem| > 0
    ensures LoadModules(EncodeAll(ms)[..c], s) == CutLoad(ms, c, s)
    decreases |ms|, 1
  {
    if ms == [] || c < MODULE_HEADER {
      CutLoadShort(ms, c, s);
      LoadShort(EncodeAll(ms)[..c], s);
    } else {
      EncodeAllStep(ms);
      if c < ms[0].Size() {
        CutLoadShort(ms, c, s);
        LoadCut(ms[0], EncodeAll(ms[1..]), c, s);
      } else {
        CutBehindFirst(ms, c, s);
      }
    }
  }

  lemma {:induction false} CutBehindFirst(ms: seq<Module>, c: nat, s: State)
    requires AllWellFormed(ms) && ms != [] && ms[0].Size() <= c <= |EncodeAll(ms)| && |s.mem| > 0
    ensures LoadModules(EncodeAll(ms)[..c], s) == CutLoad(ms, c, s)
    decreases |ms|, 0
  {
    EncodeAllStep(ms);
    var m, rest, k := ms[0], EncodeAll(ms[1..]), c - ms[0].Size();
    CutModules(ms[1..], k, ApplyModule(m.name, m.data, s).1);
    CutLoadStep(ms, c, s);
    TakeBehind(m.Encode(), rest, c);
    LoadFirst(m, rest[..k], EncodeAll(ms)[..c], s);
  }

  lemma {:induction false} TakeBehind(a: seq<Byte>, b: seq<Byte>, c: nat)
    requires |a| <= c <= |a| + |b|
    ensures (a + b)[..c] == a + b[..c - |a|]
  {
  }

  /** A 40-byte header with the right magic. */
  ghost predicate HeaderOk(header: seq<Byte>) {
    |header| == FILE_HEADER && NameIs(header[..16], MAGIC)
  }

  /** The cut falls behind the header of module `k` and before the end of its payload. */
  ghost predicate InPayload(ms: seq<Module>, k: nat, b: int)
    requires k < |ms|
  {
    Used(ms, k) + MODULE_HEADER <= b < Used(ms, k + 1)
  }

  ghost predicate CutsPayload(ms: seq<Module>, b: int) {
    exists k :: 0 <= k < |ms| && InPayload(ms, k, b)
  }

  lemma {:induction false} EncodeAllSize(ms: seq<Module>)
    requires forall m :: m in ms ==> |m.name| == 16
    ensures |EncodeAll(ms)| == Used(ms, |ms|)
  {
    if ms != [] { EncodeAllSize(ms[1..]); }
  }

  lemma {:induction false} CutsPayloadIs(ms: seq<Module>, b: nat)
    requires AllWellFormed(ms) && b <= |EncodeAll(ms)|
    ensures CutsPayload(ms, b) <==> Leftover(ms, b) >= MODULE_HEADER
  {
    LeftoverIs(ms, b);
    var w := Whole(ms, b);
    WholeIsLargest(ms, b);
    EncodeAllSize(ms);
    if b - Used(ms, w) >= MODULE_HEADER {
      assert InPayload(ms, w, b);
    }
    forall k | 0 <= k < |ms| && InPayload(ms, k, b)
      ensures k == w
    {
      if k < w {
        UsedGrows(ms, k + 1, w);
      } else if w < k {
        UsedGrows(ms, w + 1, k);
      }
    }
  }

  lemma {:induction false} LoadBehindHeader(header: seq<Byte>, body: seq<Byte>, c: nat, s: State)
    requires HeaderOk(header) && |s.mem| > 0 && FILE_HEADER <= c <= FILE_HEADER + |body|
    ensures Load((header + body)[..c], s) == LoadModules(body[..c - FILE_HEADER], s)
  {
    var file := (header + body)[..c];
    assert file[..16] == header[..16] && file[FILE_HEADER..] == body[..c - FILE_HEADER];
  }

  lemma {:induction false} LoadCutIs(header: seq<Byte>, ms: seq<Module>, c: nat, s: State, file: seq<Byte>)
    requires HeaderOk(header) && AllWellFormed(ms) && |s.mem| > 0
    requires c <= |header + EncodeAll(ms)| && file == (header + EncodeAll(ms))[..c]
    ensures Load(file, s) == if c < FILE_HEADER then (TooSmall, s) else CutLoad(ms, c - FILE_HEADER, s)
  {
    if c >= FILE_HEADER {
      LoadBehindHeader(header, EncodeAll(ms), c, s);
      CutModules(ms, c - FILE_HEADER, s);
    }
  }

  /** For a well-formed file and every cut point: the load fails exactly when the cut lies
      in the file header or within a payload, its start included. What a failed or
      shortened load has done is the effect of the modules in front of the cut. */
  lemma {:induction false} LoadCutFile(header: seq<Byte>, ms: seq<Module>, c: nat, s: State)
    requires HeaderOk(header) && AllWellFormed(ms) && |s.mem| > 0
    requires c <= |header + EncodeAll(ms)|
    ensures var (o, s') := Load((header + EncodeAll(ms))[..c], s);
            && (o != Ok <==> c < FILE_HEADER || CutsPayload(ms, c - FILE_HEADER))
            && s' == if c < FILE_HEADER then s else Effects(ms[..Whole(ms, c - FILE_HEADER)], s)
  {
    LoadCutIs(header, ms, c, s, (header + EncodeAll(ms))[..c]);
    if c >= FILE_HEADER {
      CutsPayloadIs(ms, c - FILE_HEADER);
    }
  }

  // ---- Saving ----

  /** Payload of the CPU module: registers the CPU lacks are saved as 0, wider ones cut to 8 bits. */
  function CpuPayload(c: CpuState): (r: seq<Byte>)
    ensures |r| == 7
  {
    LE16(c.pc) + [c.Reg("A") % 256, c.Reg("X") % 256, c.Reg("Y") % 256, c.Reg("SP") % 256, c.Reg("P") % 256]
  }

  function RamPayload(m: seq<Byte>): (r: seq<Byte>)
    requires |m| > 0
    ensures |r| == 4 + RAM_BYTES
  {
    LE32(RAM_BYTES) + PeekRange(m, 0, RAM_BYTES)
  }

  function Header(machine: seq<Byte>): (r: seq<Byte>)
    ensures |r| == FILE_HEADER
  {
    Field(MAGIC) + LE32(1) + Field(machine) + ZeroBytes(4)
  }

  /** The two modules the saver writes. */
  function SavedModules(s: State): seq<Module>
    requires |s.mem| > 0
  {
    [Module(Field(CPU_NAME), 1, CpuPayload(s.cpu)), Module(Field(RAM_NAME), 1, RamPayload(s.mem))]
  }

  function Save(machine: seq<Byte>, s: State): seq<Byte>
    requires |s.mem| > 0
  {
    Header(machine) + EncodeAll(SavedModules(s))
  }

  /** `writeU16LE` */
  method WriteU16LE(buf: array<Byte>, at: nat, v: Word32)
    requires at + 2 <= buf.Length
    modifies buf
    ensures buf[..] == old(buf[..at]) + LE16(v) + old(buf[at + 2..])
  {
    buf[at] := v % 256;
    buf[at + 1] := v / 256 % 256;
  }

  /** `writeU32LE` */
  method WriteU32LE(buf: array<Byte>, at: nat, v: Word32)
    requires at + 4 <= buf.Length
    modifies buf
    ensures buf[..] == old(buf[..at]) + LE32(v) + old(buf[at + 4..])
  {
    buf[at] := v % 256;
    buf[at + 1] := v / 256 % 256;
    buf[at + 2] := v / 256 / 256 % 256;
    buf[at + 3] := v / 256 / 256 / 256 % 256;
  }

  /** `memcpy` into a buffer. */
  method CopyInto(buf: array<Byte>, at: nat, src: seq<Byte>)
    requires at + |src| <= buf.Length
    modifies buf
    ensures buf[..] == old(buf[..at]) + src + old(buf[at + |src|..])
  {
    ghost var before, behind := buf[..at], buf[at + |src|..];
    for i := 0 to |src|
      invariant buf[..at] == before && buf[at + |src|..] == behind
      invariant buf[at..at + i] == src[..i]
    {
      buf[at + i] := src[i];
      assert buf[at..at + i + 1] == buf[at..at + i] + [src[i]];
    }
    assert buf[..] == buf[..at] + buf[at..at + |src|] + buf[at + |src|..];
  }

  method CreateCpuModule(cpu: Cpu) returns (payload: seq<Byte>)
    ensures payload == CpuPayload(cpu.state)
  {
    var buf := new Byte[7](_ => 0);
    WriteU16LE(buf, 0, cpu.state.pc);
    buf[2] := cpu.state.Reg("A") % 256;
    buf[3] := cpu.state.Reg("X") % 256;
    buf[4] := cpu.state.Reg("Y") % 256;
    buf[5] := cpu.state.Reg("SP") % 256;
    buf[6] := cpu.state.Reg("P") % 256;
    payload := buf[..];
  }

  method CreateRamModule(bus: Bus) returns (payload: seq<Byte>)
    requires bus.Valid()
    ensures payload == RamPayload(bus.cells[..])
  {
    var buf := new Byte[4 + RAM_BYTES](_ => 0);
    WriteU32LE(buf, 0, RAM_BYTES);
    ghost var ram := PeekRange(bus.cells[..], 0, RAM_BYTES);
    for i := 0 to RAM_BYTES
      invariant buf[..4] == LE32(RAM_BYTES)
      invariant buf[4..4 + i] == ram[..i]
    {
      buf[4 + i] := bus.Peek8(i);
      assert buf[4..4 + i + 1] == buf[4..4 + i] + [ram[i]];
    }
    assert buf[..] == buf[..4] + buf[4..4 + RAM_BYTES];
    assert ram[..RAM_BYTES] == ram;
    payload := buf[..];
  }

  /** A module header followed by its payload, as `file.write` sends them. */
  method WriteModule(name: seq<Byte>, payload: seq<Byte>) returns (bytes: seq<Byte>)
    requires |payload| < WORD32
    ensures bytes == Module(Field(name), 1, payload).Encode()
  {
    var modBuf := new Byte[MODULE_HEADER](_ => 0);
    CopyInto(modBuf, 0, Field(name));
    WriteU32LE(modBuf, 16, 1);
    WriteU32LE(modBuf, 20, |payload|);
    bytes := modBuf[..] + payload;
  }

  lemma {:induction false} ZerosAre(s: seq<Byte>)
    requires forall i :: 0 <= i < |s| ==> s[i] == 0
    ensures s == [] + ZeroBytes(|s|)
  {
  }

  /** Overwriting the front of the zeroed rest of a buffer. */
  lemma {:induction false} Splice(a: seq<Byte>, n: nat, src: seq<Byte>)
    requires |src| <= n
    ensures var buf := a + ZeroBytes(n);
            buf[..|a|] + src + buf[|a| + |src|..] == a + src + ZeroBytes(n - |src|)
  {
    var buf := a + ZeroBytes(n);
    assert buf[..|a|] == a && buf[|a| + |src|..] == ZeroBytes(n - |src|);
  }

  /** The buffer of the 40-byte file header, from its three fields. */
  method FillHeader(magic: seq<Byte>, version: Word32, machine: seq<Byte>) returns (bytes: seq<Byte>)
    requires |magic| == 16 && |machine| == 16
    ensures bytes == magic + LE32(version) + machine + ZeroBytes(4)
  {
    var headerBuf := new Byte[FILE_HEADER](_ => 0);
    ZerosAre(headerBuf[..]);
    Splice([], FILE_HEADER, magic);
    CopyInto(headerBuf, 0, magic);
    assert headerBuf[..] == magic + ZeroBytes(24);
    Splice(magic, 24, LE32(version));
    WriteU32LE(headerBuf, 16, version);
    assert headerBuf[..] == magic + LE32(version) + ZeroBytes(20);
    Splice(magic + LE32(version), 20, machine);
    CopyInto(headerBuf, 20, machine);
    bytes := headerBuf[..];
  }

  lemma {:induction false} EncodeTwo(a: Module, b: Module)
    requires |a.name| == 16 && |b.name| == 16
    ensures EncodeAll([a, b]) == a.Encode() + b.Encode()
  {
    assert [a, b][1..] == [b] && [b][1..] == [];
    assert EncodeAll([b]) == b.Encode() + [];
  }

  method SaveFile(machine: seq<Byte>, cpu: Cpu, bus: Bus) returns (file: seq<Byte>)
    requires bus.Valid()
    ensures file == Save(machine, StateOf(cpu, bus))
  {
    file := FillHeader(Field(MAGIC), 1, Field(machine));
    ghost var mods := SavedModules(StateOf(cpu, bus));
    EncodeTwo(mods[0], mods[1]);
    var cpuMod := CreateCpuModule(cpu);
    var cpuBytes := WriteModule(CPU_NAME, cpuMod);
    file := file + cpuBytes;
    var ramMod := CreateRamModule(bus);
    var ramBytes := WriteModule(RAM_NAME, ramMod);
    file := file + ramBytes;
  }

  // ---- The saved bytes ----

  lemma {:induction false} LE32Bytes()
    ensures LE32(1) == [1, 0, 0, 0] && LE32(7) == [7, 0, 0, 0]
    ensures LE32(65536) == [0, 0, 1, 0] && LE32(65540) == [4, 0, 1, 0]
  {
  }

  lemma {:induction false} ShortField(name: seq<Byte>)
    requires |name| <= 15 && forall i :: 0 <= i < |name| ==> name[i] != 0
    ensures Field(name) == name + ZeroBytes(16 - |name|)
  {
    CStringPlain(name);
  }

  /** A name field holds up to 15 characters of the name, up to its first NUL, and NULs. */
  lemma {:induction false} FieldIs(name: seq<Byte>, i: nat)
    requires i < 16
    ensures Field(name)[i] == if i < 15 && i < |CString(name)| then CString(name)[i] else 0
  {
  }

  lemma {:induction false} CStringIs(name: seq<Byte>, front: seq<Byte>, rest: seq<Byte>)
    requires 0 !in front && name == front + rest && (rest != [] ==> rest[0] == 0)
    ensures CString(name) == front
    decreases |front|
  {
    if front != [] {
      CStringIs(name[1..], front[1..], rest);
    }
  }

  /** The header of a saved file: the text "VICE Snapshot", version 1, and the machine. */
  lemma {:induction false} HeaderBytes(machine: seq<Byte>)
    ensures Header(machine)
            == [0x56, 0x49, 0x43, 0x45, 0x20, 0x53, 0x6E, 0x61, 0x70, 0x73, 0x68, 0x6F, 0x74] + [0, 0, 0]
               + [1, 0, 0, 0] + Field(machine) + [0, 0, 0, 0]
  {
    ShortField(MAGIC);
    LE32Bytes();
    assert ZeroBytes(3) == [0, 0, 0] && ZeroBytes(4) == [0, 0, 0, 0];
  }

  lemma {:induction false} CpuModuleBytes(c: CpuState, m: Module)
    requires m == Module(Field(CPU_NAME), 1, CpuPayload(c))
    ensures m.Encode()
            == [0x43, 0x50, 0x55] + ZeroBytes(13) + [1, 0, 0, 0] + [7, 0, 0, 0]
               + [c.pc % 256, c.pc / 256 % 256, c.Reg("A") % 256, c.Reg("X") % 256, c.Reg("Y") % 256, c.Reg("SP") % 256,
                  c.Reg("P") % 256]
  {
    ShortField(CPU_NAME);
    LE32Bytes();
  }

  lemma {:induction false} RamModuleBytes(mem: Memory, m: Module)
    requires m == Module(Field(RAM_NAME), 1, RamPayload(mem))
    ensures m.Encode()
            == [0x52, 0x41, 0x4D] + ZeroBytes(13) + [1, 0, 0, 0] + [4, 0, 1, 0]
               + ([0, 0, 1, 0] + PeekRange(mem, 0, 65536))
  {
    ShortField(RAM_NAME);
    LE32Bytes();
  }

  /** The whole file: 40 bytes of header, the CPU module of 7 and the RAM module of 65540, each
      behind a header of 24. */
  lemma {:induction false} SavedBytes(machine: seq<Byte>, s: State)
    requires |s.mem| > 0
    ensures var c := s.cpu;
            Save(machine, s) ==
            ([0x56, 0x49, 0x43, 0x45, 0x20, 0x53, 0x6E, 0x61, 0x70, 0x73, 0x68, 0x6F, 0x74] + [0, 0, 0]
             + [1, 0, 0, 0] + Field(machine) + [0, 0, 0, 0])
            + (([0x43, 0x50, 0x55] + ZeroBytes(13) + [1, 0, 0, 0] + [7, 0, 0, 0]
                + [c.pc % 256, c.pc / 256 % 256, c.Reg("A") % 256, c.Reg("X") % 256, c.Reg("Y") % 256,
                   c.Reg("SP") % 256, c.Reg("P") % 256])
               + ([0x52, 0x41, 0x4D] + ZeroBytes(13) + [1, 0, 0, 0] + [4, 0, 1, 0]
                  + ([0, 0, 1, 0] + PeekRange(s.mem, 0, 65536))))
    ensures |Save(machine, s)| == 40 + (24 + 7) + (24 + 65540)
  {
    var mods := SavedModules(s);
    HeaderBytes(machine);
    CpuModuleBytes(s.cpu, mods[0]);
    RamModuleBytes(s.mem, mods[1]);
    EncodeTwo(mods[0], mods[1]);
  }

  // ---- Save, then load ----

  lemma {:induction false} CStringPlain(s: seq<Byte>)
    requires forall i :: 0 <= i < |s| ==> s[i] != 0
    ensures CString(s) == s
  {
    if s != [] {
      CStringPlain(s[1..]);
    }
  }

  /** A short name without NULs survives its 16-byte field. */
  lemma {:induction false} FieldRoundTrip(s: seq<Byte>)
    requires |s| <= 15 && forall i :: 0 <= i < |s| ==> s[i] != 0
    ensures NameIs(Field(s), s)
  {
    CStringPlain(s);
  }

  /** The target machine after loading a snapshot of `s` into `t`. */
  function Restored(s: State, t: State): State
    requires |s.mem| > 0 && |t.mem| > 0
  {
    State(CpuApplied(CpuPayload(s.cpu), t.cpu), PokeRange(t.mem, 0, PeekRange(s.mem, 0, RAM_BYTES)))
  }

  lemma {:induction false} ApplySavedCpu(s: State, t: State)
    requires |s.mem| > 0 && |t.mem| > 0
    ensures var m := SavedModules(s)[0];
            m.WellFormed() && ApplyModule(m.name, m.data, t) == (Ok, t.(cpu := CpuApplied(CpuPayload(s.cpu), t.cpu)))
  {
    FieldRoundTrip(CPU_NAME);
  }

  lemma {:induction false} ApplySavedRam(s: State, t: State)
    requires |s.mem| > 0 && |t.mem| > 0
    ensures var m := SavedModules(s)[1];
            && m.WellFormed()
            && ApplyModule(m.name, m.data, t) == (Ok, t.(mem := PokeRange(t.mem, 0, PeekRange(s.mem, 0, RAM_BYTES))))
  {
    FieldRoundTrip(RAM_NAME);
    var ram := RamPayload(s.mem);
    assert ram[0..4] == LE32(RAM_BYTES);
    ReadLE32(ram, 0, RAM_BYTES);
    assert RamWritten(ram) == PeekRange(s.mem, 0, RAM_BYTES);
  }

  lemma {:induction false} SavedHeader(machine: seq<Byte>, rest: seq<Byte>, t: State)
    requires |t.mem| > 0
    ensures Load(Header(machine) + rest, t) == LoadModules(rest, t)
  {
    FieldRoundTrip(MAGIC);
    var file := Header(machine) + rest;
    assert Header(machine)[..16] == Field(MAGIC);
    LoadBehindHeader(Header(machine), rest, |file|, t);
    assert file[..|file|] == file && rest[..|rest|] == rest;
  }

  /** A saved file always loads, whatever the state of the target. */
  lemma {:induction false} SaveThenLoad(machine: seq<Byte>, s: State, t: State)
    requires |s.mem| > 0 && |t.mem| > 0
    ensures Load(Save(machine, s), t) == (Ok, Restored(s, t))
  {
    var a, b := SavedModules(s)[0], SavedModules(s)[1];
    var t' := t.(cpu := CpuApplied(CpuPayload(s.cpu), t.cpu));
    ApplySavedCpu(s, t);
    ApplySavedRam(s, t');
    EncodeTwo(a, b);
    SavedHeader(machine, a.Encode() + b.Encode(), t);
    LoadWhole(a, b.Encode(), t);
    LoadWhole(b, [], t');
    assert b.Encode() + [] == b.Encode();
  }

  const SAVED_REGS := {"A", "X", "Y", "SP", "P"}

  /** The program counter comes back modulo 2^16 and the five registers modulo 2^8;
      registers outside the format keep the target's values. */
  lemma {:induction false} RestoredCpu(s: State, t: State)
    requires |s.mem| > 0 && |t.mem| > 0
    ensures var r := Restored(s, t).cpu;
            && r.pc == s.cpu.pc % 65536
            && r.regs.Keys == t.cpu.regs.Keys
            && (forall n :: n in r.regs ==>
                r.regs[n] == if n in SAVED_REGS then s.cpu.Reg(n) % 256 else t.cpu.regs[n])
  {
    var d := CpuPayload(s.cpu);
    assert d[0..2] == LE16(s.cpu.pc);
    ReadLE16(d, 0, s.cpu.pc);
  }

  /** On a machine with the same registers, each field comes back exactly if and only if it
      fits its width in the file: 16 bits for the program counter, 8 for the others. */
  lemma {:induction false} RestoredExactly(s: State, t: State, name: string)
    requires |s.mem| > 0 && |t.mem| > 0
    requires name in SAVED_REGS && name in s.cpu.regs && name in t.cpu.regs
    ensures var r := Restored(s, t).cpu;
            && (r.pc == s.cpu.pc <==> s.cpu.pc < 65536)
            && (name in r.regs && (r.regs[name] == s.cpu.regs[name] <==> s.cpu.regs[name] < 256))
  {
    RestoredCpu(s, t);
  }

  lemma {:induction false} MultipleAgrees(m: Memory, n: int)
    requires n > 0 && n % |m| == 0
    ensures Agrees(0, PeekRange(m, 0, RAM_BYTES), n)
  {
    var data := PeekRange(m, 0, RAM_BYTES);
    forall j, k | 0 <= j < |data| && 0 <= k < |data| && Cell(0, j, n) == Cell(0, k, n)
      ensures data[j] == data[k]
    {
      ModOfMod(j, n, |m|);
      ModOfMod(k, n, |m|);
    }
  }

  /** On any target, all 16-bit addresses read as they did when saved exactly if saved bytes
      that share a cell of the target agree. On a target of at least 64K, or of a multiple of
      the saved size, they do. */
  lemma {:induction false} RestoredRamExactly(s: State, t: State)
    requires |s.mem| > 0 && |t.mem| > 0
    ensures PeekRange(Restored(s, t).mem, 0, RAM_BYTES) == PeekRange(s.mem, 0, RAM_BYTES)
            <==> Agrees(0, PeekRange(s.mem, 0, RAM_BYTES), |t.mem|)
    ensures |t.mem| >= RAM_BYTES || |t.mem| % |s.mem| == 0 ==> Agrees(0, PeekRange(s.mem, 0, RAM_BYTES), |t.mem|)
  {
    PeekAfterPokeExactly(t.mem, 0, PeekRange(s.mem, 0, RAM_BYTES));
    if |t.mem| % |s.mem| == 0 {
      MultipleAgrees(s.mem, |t.mem|);
    }
  }

  /** Memory above 64K keeps its contents. */
  lemma {:induction false} RestoredFrame(s: State, t: State, c: nat)
    requires |s.mem| > 0 && RAM_BYTES <= c < |t.mem|
    ensures Restored(s, t).mem[c] == t.mem[c]
  {
    ModUnique(c, 0, c, |t.mem|);
    PokeRangeCells(t.mem, 0, PeekRange(s.mem, 0, RAM_BYTES), c);
  }
}
