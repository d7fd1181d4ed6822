/** The memory commands of the serial monitor: `M`, `X` and `S`. */
module SerialMonitor {
  import opened Modular
  import opened Machine
  import opened Options
  import opened HexText

  /** What the memory commands see: the memory, and the last dump address. */
  datatype Monitor = Monitor(mem: Memory, last: Word32)

  /** What a monitor does with a command, and its response. */
  type Handler = (Monitor, string) -> (Monitor, string)

  /** The default argument of `cmd_memory`, which stands for "the next 256 bytes". */
  const CONTINUE: Word32 := 0xFFFF_FFFF

  // ---- Reading arguments ----

  function SkipBlanks(s: string): string {
    if s != "" && s[0] == ' ' then SkipBlanks(s[1..]) else s
  }

  /** `ss >> std::hex >> x` for a `uint32_t`: the number and the text behind it; `None` where
      the extraction fails, which includes numbers that do not fit. A minus sign negates. */
  function ExtractHex(s: string): Option<(Word32, string)> {
    var t := SkipBlanks(s);
    var u := if Signed(t) then t[1..] else t;
    var d := if "0x" <= u || "0X" <= u then u[2..] else u;
    var k := Run(d);
    if k == 0 || Value(d[..k]) >= WORD32 then None
    else Some((if Signed(t) && t[0] == '-' then Wrap(0 - Value(d[..k]) as int) else Value(d[..k]), d[k..]))
  }

  function UpperCase(c: char): char {
    if 'a' <= c <= 'z' then (c as int - 32) as char else c
  }

  // ---- What the commands print ----

  /** `cmd_memory_raw`: two digits a byte, separated by blanks. */
  function RawText(bytes: seq<Byte>): string {
    if bytes == [] then ""
    else
      var init := bytes[..|bytes| - 1];
      (if init == [] then "" else RawText(init) + " ") + UByte2(bytes[|bytes| - 1])
  }

  lemma {:induction false} RawSnoc(init: seq<Byte>, v: Byte)
    ensures RawText(init + [v]) == if init == [] then UByte2(v) else RawText(init) + (" " + UByte2(v))
  {
    assert (init + [v])[..|init|] == init;
    assert "" + UByte2(v) == UByte2(v);
  }

  /** The hex column of a dump line. */
  function HexColumn(bytes: seq<Byte>): string {
    if bytes == [] then "" else HexColumn(bytes[..|bytes| - 1]) + (UByte2(bytes[|bytes| - 1]) + " ")
  }

  function Shown(b: Byte): char {
    if 0x20 <= b < 0x7F then b as char else '.'
  }

  /** The ASCII column of a dump line. */
  function AsciiColumn(bytes: seq<Byte>): (s: string)
    ensures |s| == |bytes|
  {
    seq(|bytes|, i requires 0 <= i < |bytes| => Shown(bytes[i]))
  }

  const ROWS := 16

  const COLS := 16

  /** One dump line, without its line feed. */
  function DumpLine(m: Memory, addr: Word32, width: nat): string {
    var row := PeekRange(m, addr, COLS);
    Padded(addr, width) + ": " + HexColumn(row) + (" " + AsciiColumn(row))
  }

  /** The lines of a dump. */
  function DumpLines(m: Memory, addr: Word32, width: nat, rows: nat): (lines: seq<string>)
    ensures |lines| == rows
  {
    seq(rows, k requires 0 <= k < rows => DumpLine(m, Wrap(addr + COLS * k), width))
  }

  /** Lines, each ended by a line feed. */
  function Joined(lines: seq<string>): string {
    if lines == [] then "" else Joined(lines[..|lines| - 1]) + (lines[|lines| - 1] + "\n")
  }

  /** Where a dump starts: behind the last one if asked to continue. */
  function DumpStart(m: Monitor, addr: Word32): Word32 {
    if addr == CONTINUE then Wrap(m.last + 256) else addr
  }

  /** `cmd_memory` */
  function Dump(m: Monitor, addr: Word32, width: nat): (Monitor, string) {
    var start := DumpStart(m, addr);
    (m.(last := start), Joined(DumpLines(m.mem, start, width, ROWS)))
  }

  /** `cmd_memory`, from the text behind its letter. */
  function Show(width: nat, m: Monitor, args: string): (Monitor, string) {
    match ExtractHex(args)
    case Some(a) => Dump(m.(last := a.0), a.0, width)
    case None => Dump(m, CONTINUE, width)
  }

  /** `cmd_memory_raw` */
  function Fetch(m: Monitor, args: string): (Monitor, string) {
    match ExtractHex(args)
    case None => (m, "ERROR: X <addr> <size>")
    case Some(a) =>
      match ExtractHex(a.1)
      case None => (m, "ERROR: X <addr> <size>")
      case Some(n) => (m, RawText(PeekRange(m.mem, a.0, n.0)))
  }

  /** `cmd_set_memory` */
  function Store(m: Monitor, args: string): (Monitor, string) {
    match ExtractHex(args)
    case None => (m, "ERROR: S <addr> <value>")
    case Some(a) =>
      match ExtractHex(a.1)
      case None => (m, "ERROR: S <addr> <value>")
      case Some(v) => (m.(mem := Poke(m.mem, a.0, v.0 % 256)), "OK")
  }

  /** `executeCommand`; commands other than M, X and S are left to `other`. */
  function Execute(width: nat, other: Handler, m: Monitor, cmd: string): (Monitor, string) {
    var s := SkipBlanks(cmd);
    if s == "" then other(m, cmd)
    else if UpperCase(s[0]) == 'M' then Show(width, m, s[1..])
    else if UpperCase(s[0]) == 'X' then Fetch(m, s[1..])
    else if UpperCase(s[0]) == 'S' then Store(m, s[1..])
    else other(m, cmd)
  }

  lemma {:induction false} SkipTo(blanks: string, t: string)
    requires (forall i :: 0 <= i < |blanks| ==> blanks[i] == ' ') && (t != "" ==> t[0] != ' ')
    ensures SkipBlanks(blanks + t) == t
  {
    if blanks == "" {
      assert blanks + t == t;
    } else {
      SkipTo(blanks[1..], t);
      assert (blanks + t)[1..] == blanks[1..] + t;
    }
  }

  /** The letter of a command may be of either case, behind any blanks. */
  lemma {:induction false} EitherCase(width: nat, other: Handler, m: Monitor, blanks: string, args: string)
    requires forall i :: 0 <= i < |blanks| ==> blanks[i] == ' '
    ensures Execute(width, other, m, blanks + ("m" + args)) == Execute(width, other, m, "M" + args)
            == Show(width, m, args)
    ensures Execute(width, other, m, blanks + ("x" + args)) == Execute(width, other, m, "X" + args) == Fetch(m, args)
    ensures Execute(width, other, m, blanks + ("s" + args)) == Execute(width, other, m, "S" + args) == Store(m, args)
  {
    SkipTo(blanks, "m" + args);
    SkipTo(blanks, "x" + args);
    SkipTo(blanks, "s" + args);
  }

  /** Without their numbers X and S are refused, and change nothing. */
  lemma {:induction false} NumbersMissing(m: Monitor, args: string)
    requires ExtractHex(args).None? || ExtractHex(ExtractHex(args).value.1).None?
    ensures Fetch(m, args) == (m, "ERROR: X <addr> <size>") && Store(m, args) == (m, "ERROR: S <addr> <value>")
  {
  }

  /** A value of more than 8 bits is cut. */
  lemma {:induction false} StoreCuts(m: Monitor, args: string, addr: Word32, rest: string, v: Word32, rest': string)
    requires ExtractHex(args) == Some((addr, rest)) && ExtractHex(rest) == Some((v, rest'))
    ensures Store(m, args) == (m.(mem := Poke(m.mem, addr, v % 256)), "OK")
  {
  }

  lemma {:induction false} ExtractIs(s: string, t: string, u: string, d: string, k: nat, neg: bool)
    requires t == SkipBlanks(s) && u == (if Signed(t) then t[1..] else t)
    requires d == (if "0x" <= u || "0X" <= u then u[2..] else u) && k == Run(d) && neg == (Signed(t) && t[0] == '-')
    ensures ExtractHex(s) == if k == 0 || Value(d[..k]) >= 0x1_0000_0000 then None
                             else Some((if neg then (0x1_0000_0000 - Value(d[..k])) % 0x1_0000_0000 else Value(d[..k]),
                                        d[k..]))
  {
    if k > 0 && Value(d[..k]) < WORD32 {
      ModAddMultiple(0 - Value(d[..k]) as int, 1, WORD32);
    }
  }

  /** What the monitor reads as a number: blanks, a sign, a prefix, and digits of a number that
      fits 32 bits; a minus sign wraps. */
  lemma {:induction false} ExtractReads(blanks: string, sign: string, prefix: string, digits: string, rest: string,
                                        s: string)
    requires (forall i :: 0 <= i < |blanks| ==> blanks[i] == ' ') && (sign == "" || sign == "+" || sign == "-")
    requires (prefix == "" || prefix == "0x" || prefix == "0X") && digits != "" && AllHex(digits)
    requires rest != "" ==> !IsHex(rest[0]) && (prefix == "" ==> rest[0] !in "xX")
    requires s == blanks + (sign + (prefix + (digits + rest)))
    ensures var v := Value(digits);
            ExtractHex(s) == if v >= 0x1_0000_0000 then None
                             else Some((if sign == "-" then (0x1_0000_0000 - v) % 0x1_0000_0000 else v, rest))
  {
    var d, u, t := digits + rest, prefix + (digits + rest), sign + (prefix + (digits + rest));
    RunOfPrefix(digits, rest);
    assert d[..|digits|] == digits && d[|digits|..] == rest;
    PrefixSplits(prefix, digits, rest, d, u);
    SignSplits(sign, u, t);
    SkipTo(blanks, t);
    ExtractIs(s, t, u, d, |digits|, sign == "-");
  }

  lemma {:induction false} PrefixSplits(prefix: string, digits: string, rest: string, d: string, u: string)
    requires (prefix == "" || prefix == "0x" || prefix == "0X") && digits != "" && AllHex(digits)
    requires rest != "" && prefix == "" ==> rest[0] !in "xX"
    requires d == digits + rest && u == prefix + d
    ensures d == (if "0x" <= u || "0X" <= u then u[2..] else u) && u != "" && IsHex(u[0])
  {
    assert IsHex(digits[0]) && (|digits| > 1 ==> IsHex(digits[1]));
    if prefix == "" {
      assert u == d && u[0] == digits[0] && (|u| > 1 ==> u[1] !in "xX");
    } else {
      assert u[2..] == d && u[0] == '0';
    }
  }

  lemma {:induction false} SignSplits(sign: string, u: string, t: string)
    requires (sign == "" || sign == "+" || sign == "-") && u != "" && IsHex(u[0]) && t == sign + u
    ensures u == (if Signed(t) then t[1..] else t) && (sign == "-") == (Signed(t) && t[0] == '-') && t[0] != ' '
  {
    if sign == "" { assert t == u; } else { assert t[1..] == u; }
  }

  // ---- The command handlers in place ----

  class Server {
    const bus: Bus
    const width: nat
    var lastMemAddr: Word32

    constructor (bus: Bus, width: nat)
      ensures this.bus == bus && this.width == width && lastMemAddr == 0
    {
      this.bus, this.width := bus, width;
      lastMemAddr := 0;
    }

    ghost function State(): Monitor
      requires bus.Valid()
      reads this, bus.cells
    {
      Monitor(bus.cells[..], lastMemAddr)
    }

    /** The inner loops of `cmd_memory`: one line. */
    method PrintLine(lineAddr: Word32) returns (out: string)
      requires bus.Valid()
      ensures out == DumpLine(bus.cells[..], lineAddr, width)
    {
      ghost var row := PeekRange(bus.cells[..], lineAddr, COLS);
      var hex, ascii := "", "";
      for col := 0 to COLS
        invariant hex == HexColumn(row[..col])
      {
        assert row[..col + 1][..col] == row[..col];
        hex := hex + (UByte2(bus.PeekAt(lineAddr + col)) + " ");
      }
      for col := 0 to COLS
        invariant ascii == AsciiColumn(row[..col])
      {
        assert AsciiColumn(row[..col + 1]) == AsciiColumn(row[..col]) + [Shown(row[col])];
        ascii := ascii + [Shown(bus.PeekAt(lineAddr + col))];
      }
      assert row[..COLS] == row;
      out := Padded(lineAddr, width) + ": " + hex + (" " + ascii);
    }

    /** The outer loop of `cmd_memory`. */
    method PrintRows(addr: Word32, rows: nat) returns (out: string)
      requires bus.Valid()
      ensures out == Joined(DumpLines(bus.cells[..], addr, width, rows))
    {
      out := "";
      ghost var lines := DumpLines(bus.cells[..], addr, width, rows);
      for line := 0 to rows
        invariant out == Joined(lines[..line])
      {
        assert lines[..line + 1][..line] == lines[..line];
        var text := PrintLine(Wrap(addr + COLS * line));
        assert text == lines[line];
        out := out + (text + "\n");
      }
      assert lines[..rows] == lines;
    }

    method CmdMemory(arg: Word32) returns (out: string)
      requires bus.Valid()
      modifies this`lastMemAddr
      ensures (State(), out) == Dump(old(State()), arg, width)
    {
      var addr := arg;
      if addr == CONTINUE { addr := Wrap(lastMemAddr + 256); }
      lastMemAddr := addr;
      out := PrintRows(addr, ROWS);
    }

    method CmdMemoryRaw(addr: Word32, size: Word32) returns (out: string)
      requires bus.Valid()
      ensures out == RawText(PeekRange(bus.cells[..], addr, size))
    {
      out := "";
      ghost var data := PeekRange(bus.cells[..], addr, size);
      for i := 0 to size
        invariant out == RawText(data[..i])
      {
        assert data[..i + 1][..i] == data[..i];
        if i > 0 { out := out + " "; }
        out := out + UByte2(bus.PeekAt(addr + i));
      }
      assert data[..size] == data;
    }

    method CmdSetMemory(addr: Word32, value: Byte) returns (out: string)
      requires bus.Valid()
      modifies bus.cells
      ensures State() == old(State()).(mem := Poke(old(bus.cells[..]), addr, value)) && out == "OK"
    {
      bus.WriteAt(addr, value);
      out := "OK";
    }

    /** The M, X and S cases of `executeCommand`. */
    method ExecuteCommand(ghost other: Handler, cmd: string)
      returns (handled: bool, out: string)
      requires bus.Valid()
      modifies this`lastMemAddr, bus.cells
      ensures handled ==> (State(), out) == Execute(width, other, old(State()), cmd)
      ensures !handled ==>
                State() == old(State()) && Execute(width, other, old(State()), cmd) == other(old(State()), cmd)
    {
      var s := SkipBlanks(cmd);
      if s == "" { return false, ""; }
      var c := UpperCase(s[0]);
      var a := ExtractHex(s[1..]);
      handled := true;
      if c == 'M' {
        if a.Some? {
          lastMemAddr := a.value.0;
          out := CmdMemory(a.value.0);
        } else {
          out := CmdMemory(CONTINUE);
        }
      } else if c == 'X' {
        if a.None? { return true, "ERROR: X <addr> <size>"; }
        var n := ExtractHex(a.value.1);
        if n.None? { return true, "ERROR: X <addr> <size>"; }
        out := CmdMemoryRaw(a.value.0, n.value.0);
      } else if c == 'S' {
        if a.None? { return true, "ERROR: S <addr> <value>"; }
        var v := ExtractHex(a.value.1);
        if v.None? { return true, "ERROR: S <addr> <value>"; }
        out := CmdSetMemory(a.value.0, v.value.0 % 256);
      } else {
        return false, "";
      }
    }
  }
}
