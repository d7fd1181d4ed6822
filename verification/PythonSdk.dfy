/** `read_memory` of the Python SDK, on a connection whose reads may split the dump. */
module PythonSdk {
  import opened Modular
  import opened Machine
  import opened Options
  import opened HexText
  import opened LineSplitter
  import opened SerialMonitor
  import opened MonitorText
  import opened DumpParser

  // ---- The client ----

  /** `f"m {addr:X}" if addr > 0 else "m"` */
  function MemoryCommand(addr: int): string {
    if addr > 0 then "m " + UNumber(addr) else "m"
  }

  /** Where the monitor's dump for that command starts. */
  function ServedStart(last: Word32, addr: int): Word32 {
    if 0 < addr < CONTINUE then addr
    else if addr == CONTINUE then Wrap(CONTINUE + 256)
    else Wrap(last + 256)
  }

  lemma {:induction false} CommandIsText(addr: int)
    ensures forall i :: 0 <= i < |MemoryCommand(addr)| ==> Printable(MemoryCommand(addr)[i])
  {
    if addr > 0 {
      ValueOfNumber(addr);
      DigitsArePrintable(UNumber(addr));
      assert MemoryCommand(addr) == ['m', ' '] + UNumber(addr);
    }
  }

  lemma {:induction false} ExecuteM(width: nat, other: Handler, m: Monitor, cmd: string, addr: Word32)
    requires cmd != "" && cmd[0] == 'm' && ExtractHex(cmd[1..]) == Some((addr, ""))
    ensures Execute(width, other, m, cmd) == Dump(m.(last := addr), addr, width)
  {
    assert SkipBlanks(cmd) == cmd;
  }

  lemma {:induction false} ExecuteBareM(width: nat, other: Handler, m: Monitor, cmd: string)
    requires cmd != "" && cmd[0] == 'm' && ExtractHex(cmd[1..]) == None
    ensures Execute(width, other, m, cmd) == Dump(m, CONTINUE, width)
  {
    assert SkipBlanks(cmd) == cmd;
  }

  lemma {:induction false} ReadCommand(addr: int, cmd: string)
    requires cmd == MemoryCommand(addr)
    ensures cmd[0] == 'm'
    ensures ExtractHex(cmd[1..]) == if 0 < addr < WORD32 then Some((addr, "")) else None
  {
    if addr > 0 {
      var d := UNumber(addr);
      ValueOfNumber(addr);
      ExtractDigits(d, "");
      assert cmd[1..] == " " + d + "";
    } else {
      assert cmd[1..] == "";
    }
  }

  lemma {:induction false} DumpIs(m: Monitor, m': Monitor, addr: Word32, width: nat, start: Word32)
    requires m'.mem == m.mem && start == DumpStart(m', addr)
    ensures Dump(m', addr, width) == (m.(last := start), Joined(DumpLines(m.mem, start, width, ROWS)))
  {
  }

  /** The monitor answers a memory command with the dump from that start. */
  lemma {:induction false} ExecuteMemory(width: nat, other: Handler, m: Monitor, addr: int, cmd: string, start: Word32)
    requires cmd == MemoryCommand(addr) && start == ServedStart(m.last, addr)
    ensures Execute(width, other, m, cmd) == (m.(last := start), Joined(DumpLines(m.mem, start, width, ROWS)))
  {
    ReadCommand(addr, cmd);
    if 0 < addr < WORD32 {
      ExecuteM(width, other, m, cmd, addr);
      DumpIs(m, m.(last := addr), addr, width, start);
    } else {
      ExecuteBareM(width, other, m, cmd);
      DumpIs(m, m, CONTINUE, width, start);
    }
  }

  /** `result[:length]` */
  function SliceTo(bytes: seq<Byte>, length: int): seq<Byte> {
    if length >= |bytes| then bytes
    else if length >= 0 then bytes[..length]
    else if |bytes| + length >= 0 then bytes[..|bytes| + length]
    else []
  }

  // ---- What a client receives ----

  /** Bytes one `recv` of the client can return. */
  const BUFFER := 4096

  /** How much the loop of `_send_command` takes from the unread bytes: pieces, up to the
      first one that holds a line feed, or until nothing arrives any more. */
  function Taken(unread: string, arrived: nat -> nat, i: nat): (c: nat)
    ensures c <= |unread|
    ensures '\n' in unread ==> '\n' in unread[..c]
    decreases |unread|
  {
    if unread == "" then 0
    else
      var n := Piece(unread, arrived(i), BUFFER);
      if '\n' in unread[..n] then n
      else
        assert unread == unread[..n] + unread[n..];
        var more := Taken(unread[n..], arrived, i + 1);
        assert unread[n..][..more] == unread[n..n + more];
        n + more
  }

  lemma {:induction false} Shift(stream: string, at: nat, n: nat)
    requires at + n <= |stream|
    ensures stream[..at] + stream[at..][..n] == stream[..at + n] && stream[at..][n..] == stream[at + n..]
  {
  }

  /** What `read_memory` returns of the bytes parsed; `None` is the ProtocolError. */
  function Cut(parsed: Option<seq<Byte>>, length: int): Option<seq<Byte>> {
    match parsed
    case Some(bytes) => Some(SliceTo(bytes, length))
    case None => None
  }

  /** What it returns for a received text. */
  function Outcome(received: string, length: int): Option<seq<Byte>> {
    Cut(ParseResponse(Strip(received)), length)
  }

  /** What there is to read behind a memory command, and how much of it is received. */
  function Stream(serve: Handler, l: Link, addr: int): string {
    l.unread + (serve(l.remote, MemoryCommand(addr)).1 + "\n")
  }

  function Received(serve: Handler, l: Link, addr: int, arrived: nat -> nat): (c: nat)
    ensures c <= |Stream(serve, l, addr)|
  {
    Taken(Stream(serve, l, addr), arrived, 0)
  }

  /** One call of `read_memory`: the link behind it, and what it returns. */
  function Read(serve: Handler, l: Link, addr: int, length: int, arrived: nat -> nat): (Link, Option<seq<Byte>>) {
    var c := Received(serve, l, addr, arrived);
    var stream := Stream(serve, l, addr);
    (Link(serve(l.remote, MemoryCommand(addr)).0, stream[c..]), Outcome(stream[..c], length))
  }

  /** A call of `read_memory`, and how its response arrives. */
  datatype Request = Request(addr: int, length: nat, arrived: nat -> nat)

  /** The link behind it, what it returns, and how much it has received. */
  datatype Answer = Answer(link: Link, got: Option<seq<Byte>>, received: nat)

  type Reader = (Link, Request) -> Answer

  function Answered(serve: Handler, l: Link, r: Request): Answer {
    var (l', got) := Read(serve, l, r.addr, r.length, r.arrived);
    Answer(l', got, Received(serve, l, r.addr, r.arrived))
  }

  lemma {:induction false} ParseNext(lines: seq<string>, k: nat)
    requires k < |lines|
    ensures ParseDump(lines[..k + 1]) == ParseDump(lines[..k]) + PyBytes(HexPart(lines[k]))
  {
    assert lines[..k + 1] == lines[..k] + [lines[k]];
    ParseSnoc(lines[..k], lines[k]);
  }

  lemma {:induction false} PyNext(words: seq<string>, j: nat)
    requires j < |words|
    ensures PyBytes(words[..j + 1]) == PyBytes(words[..j]) + PyByte(words[j])
  {
    assert words[..j + 1] == words[..j] + [words[j]];
    PySnoc(words[..j], words[j]);
  }

  class Client {
    /** What the monitor at the other end does with a command. */
    const serve: Handler
    var lastMemAddr: int
    /** The monitor at the other end of the connection. */
    var remote: Monitor
    /** What it has sent and the client has not read. */
    var unread: string

    constructor (serve: Handler, remote: Monitor)
      ensures this.serve == serve && this.remote == remote && lastMemAddr == 0 && unread == ""
    {
      this.serve, this.remote := serve, remote;
      lastMemAddr, unread := 0, "";
    }

    function State(): Link
      reads this
    {
      Link(remote, unread)
    }

    /** The loop around `recv`. */
    method Receive(arrived: nat -> nat) returns (response: string)
      modifies this`unread
      ensures var c := Taken(old(unread), arrived, 0);
              response == old(unread)[..c] && unread == old(unread)[c..]
    {
      response := "";
      var i: nat := 0;
      ghost var stream := unread;
      ghost var c := Taken(stream, arrived, 0);
      while unread != ""
        invariant |response| <= c <= |stream| && response == stream[..|response|] && unread == stream[|response|..]
        invariant c == |response| + Taken(unread, arrived, i)
        decreases |unread|
      {
        var n := Piece(unread, arrived(i), BUFFER);
        var chunk := unread[..n];
        Shift(stream, |response|, n);
        response, unread, i := response + chunk, unread[n..], i + 1;
        if '\n' in chunk { break; }
      }
    }

    /** Sends a command line, lets the monitor's session run on it, and trims what is received. */
    method SendCommand(cmd: string, arrived: nat -> nat) returns (response: string)
      requires cmd != "" && forall i :: 0 <= i < |cmd| ==> Printable(cmd[i])
      modifies this`remote, this`unread
      ensures var stream := old(unread) + (serve(old(remote), cmd).1 + "\n");
              var c := Taken(stream, arrived, 0);
              && remote == serve(old(remote), cmd).0
              && response == Strip(stream[..c]) && unread == stream[c..]
    {
      var sent: seq<string>;
      OneLine(serve, cmd, remote);
      remote, sent := SerialHandleClient(serve, [cmd + "\n"], remote);
      unread := unread + sent[0];
      response := Receive(arrived);
      response := Strip(response);
    }

    /** `for line in response.split('\n')` */
    method Parse(lines: seq<string>) returns (result: seq<Byte>)
      ensures result == ParseDump(lines)
    {
      result := [];
      for k := 0 to |lines|
        invariant result == ParseDump(lines[..k])
      {
        ParseNext(lines, k);
        var bytes := ParseLine(HexPart(lines[k]));
        result := result + bytes;
      }
      assert lines[..|lines|] == lines;
    }

    /** The loop over a line's hex part. */
    method ParseLine(words: seq<string>) returns (result: seq<Byte>)
      ensures result == PyBytes(words)
    {
      result := [];
      for j := 0 to |words|
        invariant result == PyBytes(words[..j])
      {
        PyNext(words, j);
        result := result + PyByte(words[j]);
      }
      assert words[..|words|] == words;
    }

    method ReadMemory(addr: int, length: int, arrived: nat -> nat) returns (result: Option<seq<Byte>>)
      modifies this`lastMemAddr, this`remote, this`unread
      ensures (State(), result) == Read(serve, old(State()), addr, length, arrived)
      ensures var received := Stream(serve, old(State()), addr)[..Received(serve, old(State()), addr, arrived)];
              lastMemAddr == match ParseResponse(Strip(received))
                             case Some(bytes) => addr + |bytes|
                             case None => if addr > 0 then addr else old(lastMemAddr)
    {
      if addr > 0 { lastMemAddr := addr; }
      CommandIsText(addr);
      var response := SendCommand(MemoryCommand(addr), arrived);
      if HasError(response) { return None; }
      var bytes := Parse(SplitLines(response));
      lastMemAddr := addr + |bytes|;
      return Some(SliceTo(bytes, length));
    }
  }

  // ---- When a received text tells the true bytes ----

  lemma {:induction false} SliceInRow(all: seq<Byte>, row: seq<Byte>, told: seq<Byte>, at: nat, r: nat)
    requires at + |row| <= |all| && all[at..at + |row|] == row && r <= |row|
    ensures SliceTo(all[..at] + told, at + r) == all[..at + r] <==> row[..r] <= told
  {
    var got := all[..at] + told;
    assert all[..at + r] == all[..at] + row[..r];
    if row[..r] <= told {
      assert got[..at + r] == all[..at] + told[..r];
    }
    if SliceTo(got, at + r) == all[..at + r] {
      assert got[..at + r][at..] == told[..r] && all[..at + r][at..] == row[..r];
    }
  }

  lemma {:induction false} SliceExactly(all: seq<Byte>, row: seq<Byte>, h: nat, at: nat, length: nat)
    requires h <= 3 * |row| && at + |row| <= |all| && all[at..at + |row|] == row && length <= |all|
    ensures SliceTo(all[..at] + Told(row, h), length) == all[..length] <==> length <= at || Reaches(row, h, length - at)
  {
    var told := Told(row, h);
    if length <= at {
      assert (all[..at] + told)[..length] == all[..length];
    } else if length - at <= |row| {
      ToldExactly(row, h, length - at);
      SliceInRow(all, row, told, at, length - at);
    } else {
      assert |SliceTo(all[..at] + told, length)| < length;
    }
  }

  /** The condition under which a dump that breaks off in line `k` still yields the first
      `length` bytes: what is shown does not spell ERROR, and both digits of the last of them
      are there, or the first digit of a zero. */
  predicate Sufficient(m: Memory, start: Word32, w: nat, k: nat, j: nat, length: nat) {
    && !SpellsError(m, start, k) && !Spells(Row(m, start, k)[..AsciiShown(w, j)])
    && (length <= COLS * k || Reaches(Row(m, start, k), HexShown(w, j), length - COLS * k))
  }

  lemma {:induction false} TooShort(got: Option<seq<Byte>>, bytes: seq<Byte>, length: nat)
    requires |bytes| == length && (got.Some? ==> |got.value| < length)
    ensures Cut(got, length) != Some(bytes)
  {
  }

  lemma {:induction false} FirstBytes(m: Memory, start: Word32, n: nat, length: nat)
    requires length <= n
    ensures PeekRange(m, start, n)[..length] == PeekRange(m, start, length)
  {
  }

  lemma {:induction false} OutcomeIs(s: string, length: int)
    ensures Outcome(s, length) == Cut(ParseResponse(s), length)
  {
    ParseStripped(s);
  }

  lemma {:induction false} CutParsed(m: Memory, start: Word32, n: nat, length: nat, parsed: Option<seq<Byte>>,
                                     bad: bool)
    requires parsed == if bad then None else Some(PeekRange(m, start, n))
    ensures Cut(parsed, length) == Some(PeekRange(m, start, length)) <==> length <= n && !bad
  {
    if length <= n {
      FirstBytes(m, start, n, length);
    } else {
      TooShort(parsed, PeekRange(m, start, length), length);
    }
  }

  lemma {:induction false} CutTold(m: Memory, start: Word32, all: seq<Byte>, row: seq<Byte>, h: nat, at: nat,
                                   length: nat, parsed: Option<seq<Byte>>, bad: bool)
    requires all == PeekRange(m, start, |all|) && h <= 3 * |row| && at + |row| <= |all| && all[at..at + |row|] == row
    requires parsed == if bad then None else Some(all[..at] + Told(row, h))
    ensures Cut(parsed, length) == Some(PeekRange(m, start, length))
            <==> length <= |all| && !bad && (length <= at || Reaches(row, h, length - at))
  {
    if length <= |all| {
      FirstBytes(m, start, |all|, length);
      SliceExactly(all, row, h, at, length);
    } else {
      TooShort(parsed, PeekRange(m, start, length), length);
    }
  }

  /** `read_memory` on a dump that breaks off in line `k`. */
  lemma {:induction false} CutReadExactly(m: Memory, start: Word32, width: nat, rows: nat, length: nat, k: nat, j: nat,
                                          lines: seq<string>, w: nat, parsed: Option<seq<Byte>>)
    requires BusSize(|m|) && lines == DumpLines(m, start, width, rows)
    requires k < rows && j <= |lines[k]| && w == |Padded(Wrap(start + COLS * k), width)|
    requires parsed == ParseResponse(Joined(lines[..k]) + lines[k][..j])
    ensures Cut(parsed, length) == Some(PeekRange(m, start, length))
            <==> length <= COLS * rows && Sufficient(m, start, w, k, j, length)
  {
    CutDumpParses(m, start, width, rows, k, j, lines, w);
    RowInDump(m, start, rows, k);
    CutTold(m, start, PeekRange(m, start, COLS * rows), Row(m, start, k), HexShown(w, j), COLS * k, length, parsed,
            SpellsError(m, start, k) || Spells(Row(m, start, k)[..AsciiShown(w, j)]));
  }

  lemma {:induction false} FirstOfText(text: string, c: nat)
    requires |text| <= c <= |text| + 1
    ensures (text + "\n")[..c] == if c == |text| then text else text + "\n"
  {
  }

  /** `read_memory` on a dump that is received whole, with or without its last line feed: it
      returns the bytes asked for exactly if the dump has them and no row spells ERROR. */
  lemma {:induction false} WholeReadExactly(m: Memory, start: Word32, width: nat, rows: nat, length: nat, text: string,
                                            c: nat)
    requires BusSize(|m|) && text == Joined(DumpLines(m, start, width, rows)) && |text| <= c <= |text| + 1
    ensures Outcome((text + "\n")[..c], length) == Some(PeekRange(m, start, length))
            <==> length <= COLS * rows && !SpellsError(m, start, rows)
  {
    DumpParses(m, start, width, rows, text);
    FirstOfText(text, c);
    OutcomeIs((text + "\n")[..c], length);
    CutParsed(m, start, COLS * rows, length, ParseResponse(text), SpellsError(m, start, rows));
  }

  lemma {:induction false} RowInDump(m: Memory, start: Word32, rows: nat, k: nat)
    requires BusSize(|m|) && k < rows
    ensures var all := PeekRange(m, start, COLS * rows);
            all[..COLS * k] == PeekRange(m, start, COLS * k) && all[COLS * k..COLS * k + COLS] == Row(m, start, k)
  {
    RowsStep(m, start, k);
    var all, both := PeekRange(m, start, COLS * rows), PeekRange(m, start, COLS * (k + 1));
    assert both == all[..COLS * (k + 1)];
    assert both[COLS * k..] == Row(m, start, k);
  }

  lemma {:induction false} PrefixOfText(text: string, c: nat)
    requires c <= |text|
    ensures (text + "\n")[..c] == text[..c]
  {
  }

  /** The first `c` characters of a dump are enough for `length` bytes: the dump has them, and
      no row of it spells ERROR, or none of what is received before it breaks off, which
      reaches the last of them. */
  predicate Enough(m: Memory, start: Word32, width: nat, length: nat, lines: seq<string>, c: nat) {
    && length <= COLS * |lines|
    && if c >= |Joined(lines)| then !SpellsError(m, start, |lines|)
       else
         var (k, j) := BreakIn(lines, c);
         Sufficient(m, start, |Padded(Wrap(start + COLS * k), width)|, k, j, length)
  }

  lemma {:induction false} EnoughBroken(m: Memory, start: Word32, width: nat, length: nat, lines: seq<string>, c: nat,
                                        k: nat, j: nat)
    requires c < |Joined(lines)| && (k, j) == BreakIn(lines, c)
    ensures Enough(m, start, width, length, lines, c)
            <==> length <= COLS * |lines|
                 && Sufficient(m, start, |Padded(Wrap(start + COLS * k), width)|, k, j, length)
  {
  }

  lemma {:induction false} BrokenAt(m: Memory, start: Word32, width: nat, rows: nat, length: nat, lines: seq<string>,
                                    k: nat, j: nat, w: nat, text: string)
    requires BusSize(|m|) && lines == DumpLines(m, start, width, rows)
    requires k < rows && j <= |lines[k]| && w == |Padded(Wrap(start + COLS * k), width)|
    requires text == Joined(lines[..k]) + lines[k][..j]
    ensures Outcome(text, length) == Some(PeekRange(m, start, length))
            <==> length <= COLS * rows && Sufficient(m, start, w, k, j, length)
  {
    OutcomeIs(text, length);
    CutReadExactly(m, start, width, rows, length, k, j, lines, w, ParseResponse(text));
  }

  /** On a dump of which any proper prefix is received, the bytes asked for are returned
      exactly if it is enough. */
  lemma {:induction false} BrokenReadExactly(m: Memory, start: Word32, width: nat, rows: nat, length: nat,
                                             lines: seq<string>, c: nat)
    requires BusSize(|m|) && lines == DumpLines(m, start, width, rows) && c < |Joined(lines)|
    ensures Outcome(Joined(lines)[..c], length) == Some(PeekRange(m, start, length))
            <==> Enough(m, start, width, length, lines, c)
  {
    var (k, j) := BreakIn(lines, c);
    BreaksIn(lines, c);
    BrokenAt(m, start, width, rows, length, lines, k, j, |Padded(Wrap(start + COLS * k), width)|, Joined(lines)[..c]);
    EnoughBroken(m, start, width, length, lines, c, k, j);
  }

  lemma {:induction false} DumpReadExactly(m: Memory, start: Word32, width: nat, rows: nat, length: nat,
                                           lines: seq<string>, c: nat)
    requires BusSize(|m|) && lines == DumpLines(m, start, width, rows) && c <= |Joined(lines)| + 1
    ensures Outcome((Joined(lines) + "\n")[..c], length) == Some(PeekRange(m, start, length))
            <==> Enough(m, start, width, length, lines, c)
  {
    var text := Joined(lines);
    if c >= |text| {
      WholeReadExactly(m, start, width, rows, length, text, c);
    } else {
      PrefixOfText(text, c);
      BrokenReadExactly(m, start, width, rows, length, lines, c);
    }
  }

  /** A read of more bytes than a dump has returns those of the dump, and no error. */
  lemma {:induction false} LongReadIsShort(m: Memory, start: Word32, width: nat, length: nat, text: string)
    requires BusSize(|m|) && text == Joined(DumpLines(m, start, width, ROWS)) && !SpellsError(m, start, ROWS)
    requires length > 256
    ensures Outcome(text + "\n", length) == Some(PeekRange(m, start, 256)) != Some(PeekRange(m, start, length))
  {
    DumpParses(m, start, width, ROWS, text);
    OutcomeIs(text + "\n", length);
    assert SliceTo(PeekRange(m, start, 256), length) == PeekRange(m, start, 256);
  }

  // ---- One read ----

  /** What the monitor answers to the memory commands of the client. */
  ghost predicate Serves(serve: Handler, width: nat) {
    forall m, addr :: serve(m, MemoryCommand(addr)) == Served(m, width, ServedStart(m.last, addr))
  }

  function Served(m: Monitor, width: nat, start: Word32): (Monitor, string) {
    (m.(last := start), Joined(DumpLines(m.mem, start, width, ROWS)))
  }

  lemma {:induction false} MonitorServes(width: nat, other: Handler)
    ensures Serves((m, cmd) => Execute(width, other, m, cmd), width)
  {
    forall m: Monitor, addr: int
      ensures Execute(width, other, m, MemoryCommand(addr)) == Served(m, width, ServedStart(m.last, addr))
    {
      ExecuteMemory(width, other, m, addr, MemoryCommand(addr), ServedStart(m.last, addr));
    }
  }

  /** Nothing is unread, or whole lines and the end of one. */
  predicate EndsLine(u: string) {
    u == "" || u[|u| - 1] == '\n'
  }

  /** What is unread tells no bytes, and does not show ERROR. */
  predicate Silent(u: string) {
    EndsLine(u) && ParseResponse(u) == Some([])
  }

  lemma {:induction false} NothingIsSilent()
    ensures Silent("") && Silent("\n")
  {
    EmptyLine();
    DumpOfOne("");
    SplitNone("");
    ParseEnded("");
    assert "" + "\n" == "\n";
  }

  lemma {:induction false} ParseBehind(u: string, own: string)
    requires EndsLine(u)
    ensures ParseResponse(u + own) == Both(ParseResponse(u), ParseResponse(own))
  {
    if u == "" {
      NothingIsSilent();
      assert u + own == own;
      BothEnds(ParseResponse(own));
    } else {
      var front := u[..|u| - 1];
      assert u == front + "\n";
      ParseFeed(front, own);
      ParseEnded(front);
    }
  }

  lemma {:induction false} PartBehind(u: string, own: string, n: nat, c: nat)
    requires n <= |own| && c == |u| + n
    ensures (u + own)[..c] == u + own[..n]
  {
  }

  /** What is unread and a part of a response are parsed one after the other. */
  lemma {:induction false} OutcomeBehind(u: string, part: string, length: int)
    requires EndsLine(u)
    ensures Outcome(u + part, length) == Cut(Both(ParseResponse(u), ParseResponse(part)), length)
  {
    OutcomeIs(u + part, length);
    ParseBehind(u, part);
  }

  lemma {:induction false} OutcomeSilent(u: string, part: string, length: int)
    requires Silent(u)
    ensures Outcome(u + part, length) == Outcome(part, length)
  {
    OutcomeBehind(u, part, length);
    BothEnds(ParseResponse(part));
    OutcomeIs(part, length);
  }

  lemma {:induction false} EndsLineRest(u: string, own: string, c: nat)
    requires own != "" && EndsLine(own) && c <= |u + own|
    ensures EndsLine((u + own)[c..])
  {
  }

  lemma {:induction false} ReadIs(serve: Handler, width: nat, l: Link, addr: int, length: int, arrived: nat -> nat,
                                  stream: string, c: nat)
    requires Serves(serve, width) && c == Received(serve, l, addr, arrived)
    requires stream == l.unread + (Served(l.remote, width, ServedStart(l.remote.last, addr)).1 + "\n")
    ensures c <= |stream|
    ensures Read(serve, l, addr, length, arrived)
            == (Link(l.remote.(last := ServedStart(l.remote.last, addr)), stream[c..]), Outcome(stream[..c], length))
  {
  }

  /** What a read returns that receives `c` characters, and what it leaves: if those were
      unread before, what they tell, whatever the response to its own command; and otherwise
      what was unread and a part of the response. */
  ghost predicate Behind(r: (Link, Option<seq<Byte>>), l: Link, start: Word32, own: string, c: nat, length: int) {
    && r.0.remote == l.remote.(last := start) && EndsLine(r.0.unread) && |l.unread| + |own| == c + |r.0.unread|
    && r.1 == if c < |l.unread| then Outcome(l.unread[..c], length)
              else Cut(Both(ParseResponse(l.unread), ParseResponse(own[..c - |l.unread|])), length)
  }

  lemma {:induction false} BehindIs(l: Link, start: Word32, own: string, c: nat, length: int,
                                    r: (Link, Option<seq<Byte>>))
    requires EndsLine(l.unread) && own != "" && EndsLine(own) && c <= |l.unread + own|
    requires r == (Link(l.remote.(last := start), (l.unread + own)[c..]), Outcome((l.unread + own)[..c], length))
    ensures Behind(r, l, start, own, c, length)
  {
    EndsLineRest(l.unread, own, c);
    if c < |l.unread| {
      assert (l.unread + own)[..c] == l.unread[..c];
    } else {
      PartBehind(l.unread, own, c - |l.unread|, c);
      OutcomeBehind(l.unread, own[..c - |l.unread|], length);
    }
  }

  /** Every read, whatever is unread; what it leaves are whole lines again, but for the first. */
  lemma {:induction false} ReadBehind(serve: Handler, width: nat, l: Link, addr: int, length: int, arrived: nat -> nat,
                                      own: string)
    requires Serves(serve, width) && EndsLine(l.unread)
    requires own == Served(l.remote, width, ServedStart(l.remote.last, addr)).1 + "\n"
    ensures Behind(Read(serve, l, addr, length, arrived), l, ServedStart(l.remote.last, addr), own,
                   Received(serve, l, addr, arrived), length)
  {
    var c := Received(serve, l, addr, arrived);
    ReadIs(serve, width, l, addr, length, arrived, l.unread + own, c);
    BehindIs(l, ServedStart(l.remote.last, addr), own, c, length, Read(serve, l, addr, length, arrived));
  }

  lemma {:induction false} SilentReadExactly(m: Memory, start: Word32, width: nat, length: nat, lines: seq<string>,
                                             u: string, part: string, n: nat, got: Option<seq<Byte>>)
    requires BusSize(|m|) && lines == DumpLines(m, start, width, ROWS) && n <= |Joined(lines)| + 1
    requires Silent(u) && part == (Joined(lines) + "\n")[..n] && got == Outcome(u + part, length)
    ensures got == Some(PeekRange(m, start, length)) <==> Enough(m, start, width, length, lines, n)
  {
    OutcomeSilent(u, part, length);
    DumpReadExactly(m, start, width, ROWS, length, lines, n);
  }

  /** The place the monitor serves a request from, and its dump of it. */
  function Place(l: Link, r: Request): Word32 {
    ServedStart(l.remote.last, r.addr)
  }

  function DumpFor(l: Link, r: Request, width: nat): seq<string> {
    DumpLines(l.remote.mem, Place(l, r), width, ROWS)
  }

  /** The read returns the bytes asked for. */
  predicate Right(l: Link, r: Request, o: Answer) {
    o.got == Some(PeekRange(l.remote.mem, Place(l, r), r.length))
  }

  /** Enough of the response is received for that. */
  predicate Suffices(l: Link, r: Request, width: nat, c: nat) {
    c >= |l.unread| && Enough(l.remote.mem, Place(l, r), width, r.length, DumpFor(l, r, width), c - |l.unread|)
  }

  /** An answer to a request, of which `o.received` characters are received. */
  ghost predicate Answers(l: Link, r: Request, width: nat, o: Answer) {
    var stream := l.unread + (Joined(DumpFor(l, r, width)) + "\n");
    && o.received <= |stream| && o.link == Link(l.remote.(last := Place(l, r)), stream[o.received..])
    && o.got == Outcome(stream[..o.received], r.length)
  }

  lemma {:induction false} MonitorAnswers(serve: Handler, width: nat, l: Link, r: Request, o: Answer)
    requires Serves(serve, width) && o == Answered(serve, l, r)
    ensures Answers(l, r, width, o)
  {
    ReadIs(serve, width, l, r.addr, r.length, r.arrived, l.unread + (Joined(DumpFor(l, r, width)) + "\n"), o.received);
  }

  lemma {:induction false} AnswerIs(width: nat, l: Link, r: Request, o: Answer, own: string, n: nat)
    requires Answers(l, r, width, o) && own == Joined(DumpFor(l, r, width)) + "\n" && o.received == |l.unread| + n
    ensures n <= |own| && o.got == Outcome(l.unread + own[..n], r.length)
  {
    PartBehind(l.unread, own, n, o.received);
  }

  lemma {:induction false} RightExactly(l: Link, r: Request, width: nat, n: nat, part: string, o: Answer)
    requires BusSize(|l.remote.mem|) && Silent(l.unread) && n <= |Joined(DumpFor(l, r, width))| + 1
    requires part == (Joined(DumpFor(l, r, width)) + "\n")[..n] && o.got == Outcome(l.unread + part, r.length)
    requires o.received == |l.unread| + n
    ensures Right(l, r, o) <==> Suffices(l, r, width, o.received)
  {
    SilentReadExactly(l.remote.mem, Place(l, r), width, r.length, DumpFor(l, r, width), l.unread, part, n, o.got);
  }

  /** A read on a connection where what is unread tells nothing, however the response arrives,
      as long as what was unread is received: it returns the bytes asked for, from where the
      monitor serves them, exactly if enough of the response is received. */
  lemma {:induction false} ReadMemoryExactly(serve: Handler, width: nat, l: Link, r: Request, o: Answer)
    requires Serves(serve, width) && BusSize(|l.remote.mem|) && o == Answered(serve, l, r)
    requires Silent(l.unread) && |l.unread| <= o.received
    ensures Right(l, r, o) <==> Suffices(l, r, width, o.received)
  {
    var own, n := Joined(DumpFor(l, r, width)) + "\n", o.received - |l.unread|;
    MonitorAnswers(serve, width, l, r, o);
    AnswerIs(width, l, r, o, own, n);
    RightExactly(l, r, width, n, own[..n], o);
  }

  /** A read on a connection where the end of an earlier dump is unread, and no more is
      received: whatever address it asks for, it returns bytes of the place of that dump,
      exactly if enough of it is received. */
  lemma {:induction false} StaleReadExactly(serve: Handler, width: nat, l: Link, addr: int, length: nat,
                                            arrived: nat -> nat, start: Word32, rows: nat)
    requires Serves(serve, width) && BusSize(|l.remote.mem|)
    requires l.unread == Joined(DumpLines(l.remote.mem, start, width, rows)) + "\n"
    requires Received(serve, l, addr, arrived) <= |l.unread|
    ensures Read(serve, l, addr, length, arrived).1 == Some(PeekRange(l.remote.mem, start, length))
            <==> Enough(l.remote.mem, start, width, length, DumpLines(l.remote.mem, start, width, rows),
                        Received(serve, l, addr, arrived))
  {
    var stream, c := Stream(serve, l, addr), Received(serve, l, addr, arrived);
    assert stream[..c] == l.unread[..c];
    DumpReadExactly(l.remote.mem, start, width, rows, length, DumpLines(l.remote.mem, start, width, rows), c);
  }

  lemma {:induction false} DumpFirst(m: Memory, start: Word32, width: nat, rows: nat, lines: seq<string>,
                                     rest: seq<string>)
    requires lines == DumpLines(m, start, width, rows + 1) && rest == DumpLines(m, Wrap(start + COLS), width, rows)
    ensures Joined(lines) == lines[0] + "\n" + Joined(rest)
  {
    ModSmall(start, WORD32);
    DumpLinesAppend(m, start, width, 1, rows);
    var first := DumpLines(m, Wrap(start), width, 1);
    JoinedAppend(first, rest);
    assert first == [lines[0]];
    JoinedOne(lines[0]);
  }

  lemma {:induction false} JoinedOne(line: string)
    ensures Joined([line]) == line + "\n"
  {
    assert [line][..0] == [] && "" + (line + "\n") == line + "\n";
  }

  lemma {:induction false} FirstLineParses(m: Memory, start: Word32, width: nat, line: string)
    requires BusSize(|m|) && line == DumpLine(m, start, width)
    ensures ParseResponse(line + "\n") == if SpellsError(m, start, 1) then None else Some(PeekRange(m, start, COLS))
  {
    ModSmall(start, WORD32);
    var lines := DumpLines(m, start, width, 1);
    assert lines == [line];
    JoinedOne(line);
    DumpParses(m, start, width, 1, line + "\n");
  }

  /** If only the first line has arrived, only its 16 bytes are returned, whatever was asked for. */
  lemma {:induction false} FirstLineOnly(m: Memory, start: Word32, width: nat, rows: nat, length: nat,
                                         lines: seq<string>)
    requires BusSize(|m|) && rows > 1 && lines == DumpLines(m, start, width, rows) && !SpellsError(m, start, 1)
    ensures lines[0] + "\n" <= Joined(lines)
    ensures Outcome(lines[0] + "\n", length) == Some(SliceTo(PeekRange(m, start, COLS), length))
  {
    ModSmall(start, WORD32);
    DumpFirst(m, start, width, rows - 1, lines, DumpLines(m, Wrap(start + COLS), width, rows - 1));
    FirstLineParses(m, start, width, lines[0]);
    OutcomeIs(lines[0] + "\n", length);
  }

  lemma {:induction false} RestOf(a: string, b: string, s: string)
    requires s == a + b
    ensures |a| <= |s| && s[..|a|] == a && s[|a|..] == b
  {
  }

  lemma {:induction false} PartAnswered(width: nat, l: Link, r: Request, o: Answer, stream: string, part: string,
                                        rest: string)
    requires Answers(l, r, width, o) && stream == l.unread + (Joined(DumpFor(l, r, width)) + "\n")
    requires stream == part + rest && o.received == |part|
    ensures o.link == Link(l.remote.(last := Place(l, r)), rest) && o.got == Outcome(part, r.length)
  {
    RestOf(part, rest, stream);
  }

  lemma {:induction false} NothingInFront(s: string)
    ensures "" + s == s
  {
  }

  /** A response of which the first part is received on a connection with nothing unread. */
  lemma {:induction false} PartReceived(width: nat, m: Monitor, r: Request, own: string, o: Answer, part: string,
                                        rest: string)
    requires Answers(Link(m, ""), r, width, o) && own == Joined(DumpFor(Link(m, ""), r, width)) + "\n"
    requires own == part + rest && o.received == |part|
    ensures o.link == Link(m.(last := ServedStart(m.last, r.addr)), rest) && o.got == Outcome(part, r.length)
  {
    NothingInFront(own);
    PartAnswered(width, Link(m, ""), r, o, own, part, rest);
  }

  lemma {:induction false} LineAndRest(m: Memory, start: Word32, width: nat, own: string, line: string, rest: string)
    requires own == Joined(DumpLines(m, start, width, ROWS)) + "\n" && line == DumpLine(m, start, width)
    requires rest == Joined(DumpLines(m, Wrap(start + COLS), width, ROWS - 1)) + "\n"
    ensures own == line + "\n" + rest
  {
    ModSmall(start, WORD32);
    var lines := DumpLines(m, start, width, ROWS);
    DumpFirst(m, start, width, ROWS - 1, lines, DumpLines(m, Wrap(start + COLS), width, ROWS - 1));
    assert lines[0] == line;
    TextAssoc(line + "\n", Joined(DumpLines(m, Wrap(start + COLS), width, ROWS - 1)), "\n");
  }

  lemma {:induction false} TextAssoc(a: string, b: string, c: string)
    ensures a + b + c == a + (b + c)
  {
  }

  lemma {:induction false} FirstLineRight(m: Memory, start: Word32, width: nat, line: string, length: nat)
    requires BusSize(|m|) && line == DumpLine(m, start, width) && !SpellsError(m, start, 1) && length <= COLS
    ensures Outcome(line + "\n", length) == Some(PeekRange(m, start, length))
  {
    FirstLineParses(m, start, width, line);
    OutcomeIs(line + "\n", length);
    CutParsed(m, start, COLS, length, ParseResponse(line + "\n"), false);
  }

  lemma {:induction false} StaleAnswer(width: nat, l: Link, r: Request, o: Answer, start: Word32, rows: nat)
    requires BusSize(|l.remote.mem|) && Answers(l, r, width, o) && o.received == |l.unread|
    requires l.unread == Joined(DumpLines(l.remote.mem, start, width, rows)) + "\n"
    requires r.length <= COLS * rows && !SpellsError(l.remote.mem, start, rows)
    ensures o.got == Some(PeekRange(l.remote.mem, start, r.length))
  {
    var stream := l.unread + (Joined(DumpFor(l, r, width)) + "\n");
    assert stream[..|l.unread|] == l.unread == l.unread[..|l.unread|];
    DumpReadExactly(l.remote.mem, start, width, rows, r.length, DumpLines(l.remote.mem, start, width, rows),
      |l.unread|);
  }

  lemma {:induction false} RowBehind(m: Memory, start: Word32, k: nat)
    ensures Row(m, Wrap(start + COLS), k) == Row(m, start, k + 1)
  {
    WrapStep(start + COLS, COLS * k);
  }

  /** The rows behind the first one are those of the dump that starts there. */
  lemma {:induction false} RowsBehind(m: Memory, start: Word32)
    requires !SpellsError(m, start, ROWS)
    ensures !SpellsError(m, start, 1) && !SpellsError(m, Wrap(start + COLS), ROWS - 1)
  {
    if SpellsError(m, Wrap(start + COLS), ROWS - 1) {
      var k :| 0 <= k < ROWS - 1 && Spells(Row(m, Wrap(start + COLS), k));
      RowBehind(m, start, k);
    }
  }

  lemma {:induction false} FirstReadLeaves(width: nat, m: Monitor, r: Request, o: Answer, start: Word32, line: string,
                                           rest: string)
    requires BusSize(|m.mem|) && start == ServedStart(m.last, r.addr) && !SpellsError(m.mem, start, 1)
    requires Answers(Link(m, ""), r, width, o) && o.received == |line| + 1 && r.length <= COLS
    requires line == DumpLine(m.mem, start, width)
    requires rest == Joined(DumpLines(m.mem, Wrap(start + COLS), width, ROWS - 1)) + "\n"
    ensures o.link == Link(m.(last := start), rest) && o.got == Some(PeekRange(m.mem, start, r.length))
  {
    var own := Joined(DumpLines(m.mem, start, width, ROWS)) + "\n";
    LineAndRest(m.mem, start, width, own, line, rest);
    PartReceived(width, m, r, own, o, line + "\n", rest);
    FirstLineRight(m.mem, start, width, line, r.length);
  }

  /** A read that is right spoils the next one: it asks for no more than the first row, has
      received the first line, and returns what it asks for. A second read, which receives the
      rest of the first response, then returns the bytes behind that row, whatever address it
      asks for. */
  lemma {:induction false} SecondReadIsStale(width: nat, m: Monitor, r: Request, o: Answer, r': Request, o': Answer,
                                             start: Word32)
    requires BusSize(|m.mem|) && start == ServedStart(m.last, r.addr) && !SpellsError(m.mem, start, ROWS)
    requires Answers(Link(m, ""), r, width, o) && o.received == |DumpLine(m.mem, start, width)| + 1 && r.length <= COLS
    requires Answers(o.link, r', width, o') && o'.received == |o.link.unread| && r'.length <= COLS * (ROWS - 1)
    ensures o.got == Some(PeekRange(m.mem, start, r.length)) && o.link.remote.mem == m.mem
    ensures o'.got == Some(PeekRange(m.mem, Wrap(start + COLS), r'.length))
  {
    var line, next := DumpLine(m.mem, start, width), Wrap(start + COLS);
    RowsBehind(m.mem, start);
    FirstReadLeaves(width, m, r, o, start, line, Joined(DumpLines(m.mem, next, width, ROWS - 1)) + "\n");
    StaleAnswer(width, o.link, r', o', next, ROWS - 1);
  }

  /** One `recv` that returns `n` bytes with a line feed ends the loop. */
  lemma {:induction false} OnePiece(stream: string, arrived: nat -> nat, n: nat)
    requires 0 < n <= |stream| && n <= BUFFER && arrived(0) == n && stream[n - 1] == '\n'
    ensures Taken(stream, arrived, 0) == n
  {
    assert stream[..n][n - 1] == '\n';
  }

  lemma {:induction false} FourDigits(n: nat)
    requires 0x1000 <= n < 0x1_0000
    ensures |UNumber(n)| == 4
  {
    assert |UNumber(n / 16 / 16 / 16)| == 1;
    assert |UNumber(n / 16 / 16)| == 2;
    assert |UNumber(n / 16)| == 3;
  }

  lemma {:induction false} LineSize(m: Memory, addr: Word32)
    requires 0x1000 <= addr < 0x1_0000
    ensures |DumpLine(m, addr, 6)| == 73
  {
    FourDigits(addr);
    LineParts(m, addr, 6);
  }

  lemma {:induction false} JoinedSize(lines: seq<string>)
    requires forall k :: 0 <= k < |lines| ==> |lines[k]| == 73
    ensures |Joined(lines)| == 74 * |lines|
  {
    if lines != [] { JoinedSize(lines[..|lines| - 1]); }
  }

  lemma {:induction false} DumpSize(m: Memory, start: Word32, rows: nat)
    requires 0x1000 <= start && start + COLS * rows <= 0x1_0000
    ensures |Joined(DumpLines(m, start, 6, rows))| == 74 * rows
  {
    var lines := DumpLines(m, start, 6, rows);
    forall k | 0 <= k < rows
      ensures |lines[k]| == 73
    {
      ModSmall(start + COLS * k, WORD32);
      LineSize(m, start + COLS * k);
    }
    JoinedSize(lines);
  }

  /** 64K of zeros, but for one byte. */
  function OneByteSet(at: nat): (m: Memory)
    requires at < 0x1_0000
    ensures |m| == 0x1_0000
  {
    seq(0x1_0000, i => if i == at then 1 else 0)
  }

  lemma {:induction false} SpellsNothing(m: Memory, at: nat, start: Word32, rows: nat)
    requires at < 0x1_0000 && m == OneByteSet(at)
    ensures !SpellsError(m, start, rows)
  {
    forall k: nat, i: nat | i + 5 <= COLS
      ensures !SpellsAt(Row(m, start, k), i)
    {
      assert Row(m, start, k)[i] == Peek(m, Wrap(start + COLS * k) + i) < 2;
    }
  }

  lemma {:induction false} StreamIs(serve: Handler, width: nat, l: Link, addr: int, own: string)
    requires Serves(serve, width) && own == Joined(DumpLines(l.remote.mem, ServedStart(l.remote.last, addr), width,
             ROWS)) + "\n"
    ensures Stream(serve, l, addr) == l.unread + own
  {
  }

  /** A piece that ends in the line feed of the first text. */
  lemma {:induction false} FeedAtEnd(a: string, b: string)
    requires a != "" && a[|a| - 1] == '\n'
    ensures (a + b)[|a| - 1] == '\n'
  {
  }

  lemma {:induction false} FirstReceived(serve: Handler, m: Monitor, r: Request, line: string)
    requires Serves(serve, 6) && r.addr == 0x1000 && r.arrived(0) == 74 && line == DumpLine(m.mem, 0x1000, 6)
    ensures Answered(serve, Link(m, ""), r).received == 74 == |line| + 1
  {
    var own := Joined(DumpLines(m.mem, 0x1000, 6, ROWS)) + "\n";
    var rest := Joined(DumpLines(m.mem, Wrap(0x1000 + COLS), 6, ROWS - 1)) + "\n";
    LineSize(m.mem, 0x1000);
    LineAndRest(m.mem, 0x1000, 6, own, line, rest);
    StreamIs(serve, 6, Link(m, ""), 0x1000, own);
    assert "" + own == own;
    FeedAtEnd(line + "\n", rest);
    OnePiece(own, r.arrived, 74);
  }

  lemma {:induction false} RestReceived(serve: Handler, l: Link, r: Request, own: string)
    requires Serves(serve, 6) && r.arrived(0) == 1111
    requires own == Joined(DumpLines(l.remote.mem, ServedStart(l.remote.last, r.addr), 6, ROWS)) + "\n"
    requires l.unread == Joined(DumpLines(l.remote.mem, 0x1010, 6, ROWS - 1)) + "\n"
    ensures Answered(serve, l, r).received == 1111 == |l.unread|
  {
    DumpSize(l.remote.mem, 0x1010, ROWS - 1);
    StreamIs(serve, 6, l, r.addr, own);
    FeedAtEnd(l.unread, own);
    OnePiece(l.unread + own, r.arrived, 1111);
  }

  lemma {:induction false} PlacesDiffer(m: Memory)
    requires m == OneByteSet(0x2000)
    ensures PeekRange(m, 0x1010, COLS) != PeekRange(m, 0x2000, COLS)
  {
    assert PeekRange(m, 0x1010, COLS)[0] == Peek(m, 0x1010) == 0;
    assert PeekRange(m, 0x2000, COLS)[0] == Peek(m, 0x2000) == 1;
  }

  lemma {:induction false} FailingReads(serve: Handler, m: Monitor, r: Request, o: Answer, r': Request, o': Answer)
    requires Serves(serve, 6) && m.mem == OneByteSet(0x2000)
    requires r.addr == 0x1000 && r.length == COLS && r.arrived(0) == 74 && o == Answered(serve, Link(m, ""), r)
    requires r'.addr == 0x2000 && r'.length == COLS && r'.arrived(0) == 1111 && o' == Answered(serve, o.link, r')
    ensures o.got == Some(PeekRange(m.mem, 0x1000, COLS)) && o.link.remote.mem == m.mem
    ensures o'.got != Some(PeekRange(m.mem, 0x2000, COLS))
  {
    var line, rest := DumpLine(m.mem, 0x1000, 6), Joined(DumpLines(m.mem, 0x1010, 6, ROWS - 1)) + "\n";
    MonitorAnswers(serve, 6, Link(m, ""), r, o);
    MonitorAnswers(serve, 6, o.link, r', o');
    FirstReceived(serve, m, r, line);
    SpellsNothing(m.mem, 0x2000, 0x1000, ROWS);
    RowsBehind(m.mem, 0x1000);
    FirstReadLeaves(6, m, r, o, 0x1000, line, rest);
    RestReceived(serve, o.link, r', Joined(DumpFor(o.link, r', 6)) + "\n");
    SecondReadIsStale(6, m, r, o, r', o', 0x1000);
    PlacesDiffer(m.mem);
  }

  lemma {:induction false} EachOfTwo(read: Reader, l: Link, r: Request, r': Request, test: Test)
    ensures Each(read, l, [r], test) <==> test(l, r, read(l, r))
    ensures Each(read, l, [r, r'], test) <==>
            test(l, r, read(l, r)) && test(read(l, r).link, r', read(read(l, r).link, r'))
  {
    assert [r][1..] == [] && [r, r'][1..] == [r'] && [r'][1..] == [];
    assert Each(read, read(l, r).link, [r'], test) <==> test(read(l, r).link, r', read(read(l, r).link, r'));
  }

  /** Reads at 0x1000 and then 0x2000, the first of which receives one line and the second the
      rest of its response: the first is right, and the second is not. */
  lemma {:induction false} StaleReadFails(serve: Handler, l: Link, r: Request, r': Request)
    requires Serves(serve, 6) && l == Link(Monitor(OneByteSet(0x2000), 0), "")
    requires r == Request(0x1000, COLS, _ => 74) && r' == Request(0x2000, COLS, _ => 1111)
    ensures Each(ReaderOf(serve), l, [r], Right) && !Each(ReaderOf(serve), l, [r, r'], Right)
  {
    var o := Answered(serve, l, r);
    FailingReads(serve, l.remote, r, o, r', Answered(serve, o.link, r'));
    EachOfTwo(ReaderOf(serve), l, r, r', Right);
  }

  /** A positive address is the one that is served exactly below the monitor's own
      "continue" value; from there on another place is. */
  lemma {:induction false} ServedAsAsked(last: Word32, addr: int)
    requires addr > 0
    ensures ServedStart(last, addr) == addr <==> addr < 0xFFFF_FFFF
  {
  }

  // ---- A run of reads ----

  type Test = (Link, Request, Answer) -> bool

  /** Each read of a run meets a test. */
  predicate Each(read: Reader, l: Link, run: seq<Request>, test: Test)
    decreases |run|
  {
    run == [] || (test(l, run[0], read(l, run[0])) && Each(read, read(l, run[0]).link, run[1..], test))
  }

  /** What is unread in front of the read tells nothing, and is received. */
  predicate Clean(l: Link, r: Request, o: Answer) {
    Silent(l.unread) && |l.unread| <= o.received
  }

  /** The read has received its whole response. */
  predicate Consumes(l: Link, r: Request, o: Answer) {
    o.link.unread == ""
  }

  function ReaderOf(serve: Handler): Reader {
    (l: Link, r: Request) => Answered(serve, l, r)
  }

  function Sufficing(width: nat): Test {
    (l: Link, r: Request, o: Answer) => Suffices(l, r, width, o.received)
  }

  /** The dump has the bytes asked for, and none of its rows spells ERROR. */
  predicate Fits(l: Link, r: Request, o: Answer) {
    r.length <= 256 && !SpellsError(l.remote.mem, Place(l, r), ROWS)
  }

  /** A bus behind the link, and whether anything is unread. */
  predicate OnBus(l: Link) {
    BusSize(|l.remote.mem|)
  }

  predicate Fresh(l: Link) {
    BusSize(|l.remote.mem|) && l.unread == ""
  }

  ghost predicate AgreeAt(l: Link, r: Request, o: Answer, good: Link -> bool, given: Test, p: Test, q: Test) {
    good(l) && given(l, r, o) ==> (p(l, r, o) <==> q(l, r, o)) && good(o.link)
  }

  ghost predicate Agree(read: Reader, good: Link -> bool, given: Test, p: Test, q: Test) {
    forall l: Link, r: Request :: AgreeAt(l, r, read(l, r), good, given, p, q)
  }

  /** Where any one read agrees on two tests, a run does. */
  lemma {:induction false} EachAgrees(read: Reader, good: Link -> bool, given: Test, p: Test, q: Test, l: Link,
                                      run: seq<Request>)
    requires Agree(read, good, given, p, q) && good(l) && Each(read, l, run, given)
    ensures Each(read, l, run, p) <==> Each(read, l, run, q)
    decreases |run|
  {
    if run != [] {
      assert AgreeAt(l, run[0], read(l, run[0]), good, given, p, q);
      EachAgrees(read, good, given, p, q, read(l, run[0]).link, run[1..]);
    }
  }

  lemma {:induction false} LinkBehind(serve: Handler, width: nat, l: Link, r: Request, o: Answer)
    requires Serves(serve, width) && EndsLine(l.unread) && o == Answered(serve, l, r)
    ensures o.link.remote == l.remote.(last := Place(l, r))
    ensures |l.unread| + |Joined(DumpFor(l, r, width)) + "\n"| == o.received + |o.link.unread|
  {
    ReadBehind(serve, width, l, r.addr, r.length, r.arrived, Joined(DumpFor(l, r, width)) + "\n");
  }

  lemma {:induction false} CleanReadAgrees(serve: Handler, width: nat, l: Link, r: Request, o: Answer)
    requires Serves(serve, width) && o == Answered(serve, l, r)
    ensures AgreeAt(l, r, o, OnBus, Clean, Right, Sufficing(width))
  {
    if OnBus(l) && Clean(l, r, o) {
      ReadMemoryExactly(serve, width, l, r, o);
      LinkBehind(serve, width, l, r, o);
    }
  }

  /** A run of reads: if what is unread in front of each tells nothing and is received, each
      is right exactly if enough of its response is received. */
  lemma {:induction false} RunRightExactly(serve: Handler, width: nat, l: Link, run: seq<Request>)
    requires Serves(serve, width) && OnBus(l) && Each(ReaderOf(serve), l, run, Clean)
    ensures Each(ReaderOf(serve), l, run, Right) <==> Each(ReaderOf(serve), l, run, Sufficing(width))
  {
    forall l: Link, r: Request
      ensures AgreeAt(l, r, ReaderOf(serve)(l, r), OnBus, Clean, Right, Sufficing(width))
    {
      CleanReadAgrees(serve, width, l, r, ReaderOf(serve)(l, r));
    }
    EachAgrees(ReaderOf(serve), OnBus, Clean, Right, Sufficing(width), l, run);
  }

  lemma {:induction false} ConsumedReadAgrees(serve: Handler, width: nat, l: Link, r: Request, o: Answer)
    requires Serves(serve, width) && o == Answered(serve, l, r)
    ensures AgreeAt(l, r, o, Fresh, Consumes, Right, Fits)
  {
    if Fresh(l) && Consumes(l, r, o) {
      var text := Joined(DumpFor(l, r, width));
      LinkBehind(serve, width, l, r, o);
      MonitorAnswers(serve, width, l, r, o);
      AnswerIs(width, l, r, o, text + "\n", o.received);
      assert "" + (text + "\n")[..o.received] == (text + "\n")[..o.received];
      WholeReadExactly(l.remote.mem, Place(l, r), width, ROWS, r.length, text, o.received);
    }
  }

  /** If each read receives its whole response, each is right exactly if it asks for no more
      than a dump has, and no row of it spells ERROR. */
  lemma {:induction false} ConsumedRunExactly(serve: Handler, width: nat, l: Link, run: seq<Request>)
    requires Serves(serve, width) && Fresh(l) && Each(ReaderOf(serve), l, run, Consumes)
    ensures Each(ReaderOf(serve), l, run, Right) <==> Each(ReaderOf(serve), l, run, Fits)
  {
    forall l: Link, r: Request
      ensures AgreeAt(l, r, ReaderOf(serve)(l, r), Fresh, Consumes, Right, Fits)
    {
      ConsumedReadAgrees(serve, width, l, r, ReaderOf(serve)(l, r));
    }
    EachAgrees(ReaderOf(serve), Fresh, Consumes, Right, Fits, l, run);
  }

  // ---- Responses that have arrived ----

  /** One `recv` of at most 4096 bytes takes all that has arrived, and is the only one if a
      line feed is among it. */
  lemma {:induction false} ReceivedAtOnce(stream: string, arrived: nat -> nat, n: nat)
    requires n == (if |stream| < 4096 then |stream| else 4096) && arrived(0) >= n && '\n' in stream[..n]
    ensures Taken(stream, arrived, 0) == n
  {
  }

  lemma {:induction false} ShortLine(m: Memory, addr: Word32, width: nat)
    requires width <= 8
    ensures |DumpLine(m, addr, width)| <= 75
  {
    assert Pow16(4) == 0x1_0000 && Pow16(8) == WORD32;
    NumberLength(addr, 8);
    LineParts(m, addr, width);
  }

  lemma {:induction false} JoinedAtMost(lines: seq<string>, n: nat)
    requires forall k :: 0 <= k < |lines| ==> |lines[k]| <= n
    ensures |Joined(lines)| <= (n + 1) * |lines|
  {
    if lines != [] { JoinedAtMost(lines[..|lines| - 1], n); }
  }

  lemma {:induction false} AnswerSize(m: Memory, start: Word32, width: nat)
    requires width <= 8
    ensures |Joined(DumpLines(m, start, width, ROWS)) + "\n"| <= 1217
  {
    var lines := DumpLines(m, start, width, ROWS);
    forall k | 0 <= k < |lines|
      ensures |lines[k]| <= 75
    {
      ShortLine(m, Wrap(start + COLS * k), width);
    }
    JoinedAtMost(lines, 75);
  }

  lemma {:induction false} FeedAtTheEnd(text: string, n: nat)
    requires n == |text| + 1
    ensures '\n' in (text + "\n")[..n]
  {
    assert (text + "\n")[..n][|text|] == '\n';
  }

  lemma {:induction false} AnswerAtOnce(serve: Handler, width: nat, m: Monitor, addr: int, arrived: nat -> nat,
                                        own: string)
    requires Serves(serve, width) && width <= 8 && arrived(0) >= |own|
    requires own == Joined(DumpLines(m.mem, ServedStart(m.last, addr), width, ROWS)) + "\n"
    ensures Received(serve, Link(m, ""), addr, arrived) == |own|
  {
    StreamIs(serve, width, Link(m, ""), addr, own);
    NothingInFront(own);
    AnswerSize(m.mem, ServedStart(m.last, addr), width);
    FeedAtTheEnd(Joined(DumpLines(m.mem, ServedStart(m.last, addr), width, ROWS)), |own|);
    ReceivedAtOnce(own, arrived, |own|);
  }

  /** The ordinary read: nothing is unread, and the whole answer arrives before it is received.
      It returns the bytes asked for exactly if they are no more than 256 and no row of the
      dump spells ERROR, and leaves nothing unread. */
  lemma {:induction false} PromptReadExactly(serve: Handler, width: nat, m: Monitor, addr: int, length: nat,
                                             arrived: nat -> nat, start: Word32)
    requires Serves(serve, width) && width <= 8 && BusSize(|m.mem|) && start == ServedStart(m.last, addr)
    requires arrived(0) >= |Joined(DumpLines(m.mem, start, width, 16)) + "\n"|
    ensures var (l', got) := Read(serve, Link(m, ""), addr, length, arrived);
            && l' == Link(m.(last := start), "")
            && (got == Some(PeekRange(m.mem, start, length)) <==> length <= 256 && !SpellsError(m.mem, start, 16))
  {
    var text := Joined(DumpLines(m.mem, start, width, ROWS));
    var own := text + "\n";
    AnswerAtOnce(serve, width, m, addr, arrived, own);
    NothingInFront(own);
    ReadIs(serve, width, Link(m, ""), addr, length, arrived, own, |own|);
    WholeReadExactly(m.mem, start, width, ROWS, length, text, |own|);
  }

  /** Answers of up to 1217 characters have arrived when they are read. */
  predicate Prompt(run: seq<Request>) {
    forall i :: 0 <= i < |run| ==> run[i].arrived(0) >= 1217
  }

  lemma {:induction false} PromptConsumes(serve: Handler, width: nat, m: Monitor, r: Request)
    requires Serves(serve, width) && width <= 8 && BusSize(|m.mem|) && r.arrived(0) >= 1217
    ensures Answered(serve, Link(m, ""), r).link == Link(m.(last := ServedStart(m.last, r.addr)), "")
  {
    AnswerSize(m.mem, ServedStart(m.last, r.addr), width);
    PromptReadExactly(serve, width, m, r.addr, r.length, r.arrived, ServedStart(m.last, r.addr));
  }

  lemma {:induction false} PromptRunConsumes(serve: Handler, width: nat, m: Monitor, run: seq<Request>)
    requires Serves(serve, width) && width <= 8 && BusSize(|m.mem|) && Prompt(run)
    ensures Each(ReaderOf(serve), Link(m, ""), run, Consumes)
    decreases |run|
  {
    if run != [] {
      PromptConsumes(serve, width, m, run[0]);
      PromptRunConsumes(serve, width, m.(last := ServedStart(m.last, run[0].addr)), run[1..]);
    }
  }

  /** A run of ordinary reads: all are right exactly if none asks for more than 256 bytes and
      no row of their dumps spells ERROR. */
  lemma {:induction false} PromptRunExactly(serve: Handler, width: nat, m: Monitor, run: seq<Request>)
    requires Serves(serve, width) && width <= 8 && BusSize(|m.mem|) && Prompt(run)
    ensures Each(ReaderOf(serve), Link(m, ""), run, Right) <==> Each(ReaderOf(serve), Link(m, ""), run, Fits)
  {
    PromptRunConsumes(serve, width, m, run);
    ConsumedRunExactly(serve, width, Link(m, ""), run);
  }

  // ---- Bare M commands ----

  /** The state after `n` times the same command, and all it has printed. */
  function Repeated<S>(exec: (S, string) -> (S, string), cmd: string, s: S, n: nat): (S, string) {
    if n == 0 then (s, "")
    else
      var before := Repeated(exec, cmd, s, n - 1);
      var now := exec(before.0, cmd);
      (now.0, before.1 + now.1)
  }

  lemma {:induction false} JoinedAppend(a: seq<string>, b: seq<string>)
    ensures Joined(a + b) == Joined(a) + Joined(b)
    decreases |b|
  {
    if b == [] {
      assert a + b == a;
    } else {
      var k := |b| - 1;
      JoinedAppend(a, b[..k]);
      assert (a + b)[..|a + b| - 1] == a + b[..k];
    }
  }

  lemma {:induction false} DumpLinesAppend(m: Memory, addr: int, width: nat, first: nat, second: nat)
    ensures DumpLines(m, Wrap(addr), width, first) + DumpLines(m, Wrap(addr + COLS * first), width, second)
            == DumpLines(m, Wrap(addr), width, first + second)
  {
    var a, b := DumpLines(m, Wrap(addr), width, first), DumpLines(m, Wrap(addr + COLS * first), width, second);
    var all := DumpLines(m, Wrap(addr), width, first + second);
    forall k | 0 <= k < second
      ensures b[k] == all[first + k]
    {
      WrapStep(addr + COLS * first, COLS * k);
      WrapStep(addr, COLS * (first + k));
    }
    assert a == all[..first] && b == all[first..];
  }

  /** A dump and the one that follows it. */
  lemma {:induction false} TextAppend(m: Memory, addr: int, width: nat, first: nat, second: nat)
    ensures Joined(DumpLines(m, Wrap(addr), width, first))
            + Joined(DumpLines(m, Wrap(addr + COLS * first), width, second))
            == Joined(DumpLines(m, Wrap(addr), width, first + second))
  {
    DumpLinesAppend(m, addr, width, first, second);
    JoinedAppend(DumpLines(m, Wrap(addr), width, first), DumpLines(m, Wrap(addr + COLS * first), width, second));
  }

  /** One dump that starts 256 bytes behind the last one, `rows` rows long, and the dump
      address it leaves. */
  function LongDump(m: Monitor, width: nat, rows: nat): (Monitor, string) {
    (m.(last := Wrap(m.last + COLS * rows)), Joined(DumpLines(m.mem, Wrap(m.last + 256), width, rows)))
  }

  lemma {:induction false} LongDumpText(m: Monitor, width: nat, done: nat, rows: nat, start: Word32)
    requires start == Wrap(m.last + 256 + COLS * done)
    ensures LongDump(m, width, done).1 + Joined(DumpLines(m.mem, start, width, rows))
            == LongDump(m, width, done + rows).1
  {
    TextAppend(m.mem, m.last + 256, width, done, rows);
  }

  lemma {:induction false} LongDumpNext(m: Monitor, width: nat, done: nat, rows: nat, start: Word32)
    requires COLS * rows == 256 && start == Wrap(LongDump(m, width, done).0.last + 256)
    ensures (m.(last := start), LongDump(m, width, done).1 + Joined(DumpLines(m.mem, start, width, rows)))
            == LongDump(m, width, done + rows)
  {
    LongDumpStart(m.last, done, rows);
    LongDumpText(m, width, done, rows, start);
  }

  lemma {:induction false} LongDumpStart(last: Word32, done: nat, rows: nat)
    requires COLS * rows == 256
    ensures Wrap(Wrap(last + COLS * done) + 256) == Wrap(last + 256 + COLS * done) == Wrap(last + COLS * (done + rows))
  {
    WrapStep(last + COLS * done, 256);
    assert last + 256 + COLS * done == last + COLS * (done + rows);
  }

  lemma {:induction false} LongDumpStep(width: nat, other: Handler, m: Monitor, done: nat, rows: nat)
    requires rows == ROWS
    ensures var before := LongDump(m, width, done);
            var now := Execute(width, other, before.0, "m");
            (now.0, before.1 + now.1) == LongDump(m, width, done + rows)
  {
    ExecuteMemory(width, other, LongDump(m, width, done).0, 0, "m", Wrap(LongDump(m, width, done).0.last + 256));
    LongDumpNext(m, width, done, rows, Wrap(LongDump(m, width, done).0.last + 256));
  }

  lemma {:induction false} LongDumpAt(width: nat, other: Handler, m: Monitor, k: nat, before: (Monitor, string),
                                      now: (Monitor, string))
    requires before == LongDump(m, width, ROWS * k) && now == Execute(width, other, before.0, "m")
    ensures (now.0, before.1 + now.1) == LongDump(m, width, ROWS * (k + 1))
  {
    LongDumpStep(width, other, m, ROWS * k, ROWS);
  }

  lemma {:induction false} DumpsTile(exec: (Monitor, string) -> (Monitor, string), width: nat, other: Handler,
                                     m: Monitor, n: nat)
    requires forall s, cmd :: exec(s, cmd) == Execute(width, other, s, cmd)
    ensures Repeated(exec, "m", m, n) == LongDump(m, width, ROWS * n)
  {
    if n > 0 {
      DumpsTile(exec, width, other, m, n - 1);
      var before := Repeated(exec, "m", m, n - 1);
      LongDumpAt(width, other, m, n - 1, before, exec(before.0, "m"));
    } else {
      EmptyDump(m, width);
    }
  }

  lemma {:induction false} EmptyDump(m: Monitor, width: nat)
    ensures LongDump(m, width, 0) == (m, "")
  {
    ModSmall(m.last, WORD32);
  }

  /** Bare M commands tile the memory: together they print one dump, without gap or overlap,
      that starts 256 bytes behind the last one. */
  lemma {:induction false} BareDumpsTile(width: nat, other: Handler, m: Monitor, n: nat)
    ensures Repeated((s, cmd) => Execute(width, other, s, cmd), "m", m, n) == LongDump(m, width, ROWS * n)
  {
    DumpsTile((s, cmd) => Execute(width, other, s, cmd), width, other, m, n);
  }
}
