/** The dispatch of the GDB server: what each packet does to the machine and what it is answered. */
module GdbServer {
  import opened Machine
  import opened Options
  import opened HexText
  import opened Text
  import opened GdbCodec
  import opened GdbPackets
  import opened GdbSession
  import opened Iteration
  import ContinueLoop

  /** The machine under the debugger; `dbg` is the debug context. */
  datatype Target<D> = Target(cpu: CpuState, mem: Memory, dbg: D)

  datatype BreakpointReply = BpOk | BpMalformed | BpUnsupported

  /** The parts of the emulator that the server only calls: stepping, the breakpoint list
      (`None` where a malformed number throws) and the three metadata texts. */
  datatype Hooks<!D> = Hooks(
    resume: Target<D> -> Target<D>,
    step: Target<D> -> Target<D>,
    paused: Target<D> -> bool,
    insert: (Target<D>, string) -> Option<(Target<D>, BreakpointReply)>,
    remove: (Target<D>, string) -> Option<(Target<D>, BreakpointReply)>,
    symbols: Target<D> -> seq<Byte>,
    variables: (Target<D>, string) -> seq<Byte>,
    frame: Target<D> -> seq<Byte>)

  function EngineOf<D(!new)>(h: Hooks<D>): ContinueLoop.Engine<Target<D>> {
    ContinueLoop.Engine(h.resume, h.step, h.paused,
                        (t: Target<D>) => Peek(t.mem, t.cpu.pc) == 0)
  }

  predicate StartsWith(s: string, prefix: string) {
    prefix <= s
  }

  function BpText(r: BreakpointReply): string {
    match r
    case BpOk => "OK"
    case BpMalformed => "E01"
    case BpUnsupported => ""
  }

  function Supported(): string {
    "PacketSize=4096;" + "swbreak+;hwbreak-;" + "mmemu-symbols+;" + "mmemu-variables+;" + "mmemu-frame+"
  }

  function Query<D(!new)>(h: Hooks<D>, t: Target<D>, pkt: string): string {
    if StartsWith(pkt, "qSupported") then Supported()
    else if pkt == "qAttached" then "1"
    else if pkt == "qC" then "QC1"
    else if StartsWith(pkt, "qfThreadInfo") then "m1"
    else if StartsWith(pkt, "qsThreadInfo") then "l"
    else if StartsWith(pkt, "qMmemuSymbols:") then HexOf(h.symbols(t))
    else if StartsWith(pkt, "qMmemuVariables:") then HexOf(h.variables(t, pkt[16..]))
    else if pkt == "qMmemuFrame" then HexOf(h.frame(t))
    else ""
  }

  function Breakpoint<D(!new)>(r: Option<(Target<D>, BreakpointReply)>): Effect<Target<D>> {
    match r
    case Some(p) => Reply(p.0, BpText(p.1), 0)
    case None => Crash
  }

  /** `c`, while the client's bytes arrive. */
  function Continue<D(!new)>(h: Hooks<D>, t: Target<D>, arrivals: seq<ContinueLoop.Arrival>): Effect<Target<D>> {
    var e, s := EngineOf(h), h.resume(t);
    var n := ContinueLoop.StopAfter(e, s, arrivals, 1);
    Reply(Iterated(e.step, s, n), ContinueLoop.ReplyAfter(e, s, arrivals, n),
          ContinueLoop.TakenAfter(e, s, arrivals, n))
  }

  /** The dispatch of `handleClient`, for a packet that is neither detach nor kill. */
  function Exec<D(!new)>(h: Hooks<D>, t: Target<D>, pkt: string, arrivals: seq<ContinueLoop.Arrival>)
    : (r: Effect<Target<D>>)
    requires pkt != ""
  {
    if pkt == [INTERRUPT] then Reply(t, "S02", 0)
    else if pkt[0] == 'q' || pkt[0] == 'Q' then Reply(t, Query(h, t, pkt), 0)
    else if pkt == "?" then Reply(t, "S05", 0)
    else if pkt == "g" then Reply(t, RegsText(t.cpu, 6), 0)
    else if pkt[0] == 'G' then Reply(t.(cpu := WithGdbRegs(t.cpu, pkt[1..], 6)), "OK", 0)
    else if pkt[0] == 'm' then
      match ReadMem(t.mem, pkt[1..])
      case Some(text) => Reply(t, text, 0)
      case None => Crash
    else if pkt[0] == 'M' then
      match WriteMem(t.mem, pkt[1..])
      case Some(w) => Reply(t.(mem := w.0), w.1, 0)
      case None => Crash
    else if pkt == "s" then Reply(h.step(t), "S05", 0)
    else if pkt[0] == 'c' then Continue(h, t, arrivals)
    else if pkt[0] == 'Z' then Breakpoint(h.insert(t, pkt[1..]))
    else if pkt[0] == 'z' then Breakpoint(h.remove(t, pkt[1..]))
    else if pkt[0] == 'H' then Reply(t, "OK", 0)
    else Reply(t, "", 0)
  }

  /** The dispatch's continue is the continue loop: the least stopping count, for a client that
      sends what it wants when it wants. */
  lemma {:induction false} ContinueIsLeast<D(!new)>(h: Hooks<D>, t: Target<D>, pkt: string,
                                                    arrivals: seq<ContinueLoop.Arrival>)
    returns (n: nat)
    requires pkt != "" && pkt[0] == 'c'
    ensures var e, s := EngineOf(h), h.resume(t);
            && ContinueLoop.Least(e, s, arrivals, n)
            && Exec(h, t, pkt, arrivals) == Reply(Iterated(e.step, s, n), ContinueLoop.ReplyAfter(e, s, arrivals, n),
                                                  ContinueLoop.TakenAfter(e, s, arrivals, n))
  {
    n := ContinueLoop.StopAfter(EngineOf(h), h.resume(t), arrivals, 1);
    ContinueLoop.StopIsLeast(EngineOf(h), h.resume(t), arrivals, 1);
  }

  /** When the bytes of the client's stream can be read by a run that starts at offset `pos`:
      the byte at offset `i` after `when(pos, i)` steps. */
  function Arrivals(input: string, when: (nat, nat) -> nat, pos: nat): seq<ContinueLoop.Arrival> {
    if pos <= |input| then
      seq(|input| - pos, i requires 0 <= i < |input| - pos => ContinueLoop.Arrival(input[pos + i], when(pos, pos + i)))
    else []
  }

  /** The dispatch as the session loop calls it. */
  function Dispatcher<D(!new)>(h: Hooks<D>, input: string, when: (nat, nat) -> nat)
    : (Target<D>, string, nat) -> Effect<Target<D>>
  {
    (t: Target<D>, pkt: string, pos: nat) =>
      if pkt == "" then Reply(t, "", 0) else Exec(h, t, pkt, Arrivals(input, when, pos))
  }

  /** The dispatch for a client that waits for each reply. */
  function Waiting<D(!new)>(h: Hooks<D>): (Target<D>, string) -> Effect<Target<D>> {
    (t: Target<D>, pkt: string) => if pkt == "" then Reply(t, "", 0) else Exec(h, t, pkt, [])
  }

  lemma {:induction false} NoReads<D(!new)>(h: Hooks<D>, t: Target<D>, pkt: string, arrivals: seq<ContinueLoop.Arrival>)
    requires pkt != "" && pkt[0] != 'c'
    ensures Exec(h, t, pkt, arrivals) == Exec(h, t, pkt, [])
    ensures Exec(h, t, pkt, []).Reply? ==> Exec(h, t, pkt, []).taken == 0
  {
  }

  lemma {:induction false} WaitingContinue<D(!new)>(h: Hooks<D>, t: Target<D>, arrivals: seq<ContinueLoop.Arrival>)
    requires ContinueLoop.Waits(arrivals)
    ensures Continue(h, t, arrivals) == Continue(h, t, []) && Continue(h, t, []).taken == 0
  {
    var e, s := EngineOf(h), h.resume(t);
    ContinueLoop.WaitingRun(e, s, arrivals, 1);
    ContinueLoop.WaitingRun(e, s, [], 1);
  }

  /** Only `c` reads the stream, and only if bytes arrive while it runs: all other packets, and
      those of a client that waits, leave it alone. */
  lemma {:induction false} WaitingLeavesStream<D(!new)>(h: Hooks<D>, input: string, when: (nat, nat) -> nat,
                                                        packets: seq<Incoming>)
    requires || (forall i :: 0 <= i < |packets| ==> packets[i].payload != "" && packets[i].payload[0] != 'c')
             || (forall pos: nat, i: nat :: when(pos, i) > ContinueLoop.MAX_STEPS)
    ensures LeaveStream(Dispatcher(h, input, when), Waiting(h), packets)
  {
    forall i: nat, t: Target<D>, pos: nat | i < |packets|
      ensures Dispatcher(h, input, when)(t, packets[i].payload, pos) == Waiting(h)(t, packets[i].payload)
              && (Waiting(h)(t, packets[i].payload).Reply? ==> Waiting(h)(t, packets[i].payload).taken == 0)
    {
      var p := packets[i].payload;
      if p != "" {
        if p[0] == 'c' {
          WaitingContinue(h, t, Arrivals(input, when, pos));
        } else {
          NoReads(h, t, p, Arrivals(input, when, pos));
        }
      }
    }
  }

  // ---- Replies fit their frame ----

  /** No character that starts or ends a packet. */
  predicate Clean(s: string) {
    '$' !in s && '#' !in s
  }

  lemma {:induction false} HexIsClean(b: seq<Byte>)
    ensures Clean(HexOf(b))
  {
    if b != [] {
      HexIsClean(b[..|b| - 1]);
    }
  }

  lemma {:induction false} RegsAreClean(c: CpuState, g: nat)
    requires g <= 6
    ensures Clean(RegsText(c, g))
  {
    if g > 0 {
      RegsAreClean(c, g - 1);
    }
  }

  /** The fixed replies. */
  lemma {:induction false} FixedAreClean()
    ensures Clean("") && Clean("S02") && Clean("S05") && Clean("OK") && Clean("E01")
    ensures Clean("1") && Clean("QC1") && Clean("m1") && Clean("l")
  {
  }

  lemma {:induction false} SupportedIsClean()
    ensures Clean(Supported())
  {
    assert Clean("PacketSize=4096;") && Clean("swbreak+;hwbreak-;") && Clean("mmemu-symbols+;");
    assert Clean("mmemu-variables+;") && Clean("mmemu-frame+");
  }

  lemma {:induction false} ReadIsClean(m: seq<Byte>, params: string)
    requires |m| > 0
    ensures ReadMem(m, params).Some? ==> Clean(ReadMem(m, params).value)
  {
    var comma := IndexOf(params, ',');
    if comma < |params| {
      match (Stoul(params[..comma]), Stoul(params[comma + 1..]))
      case (Some(addr), Some(len)) =>
        HexIsClean(PeekRange(m, Wrap(addr), if Wrap(len) > MAX_READ then MAX_READ else Wrap(len)));
      case _ =>
    }
  }

  lemma {:induction false} QueryIsClean<D(!new)>(h: Hooks<D>, t: Target<D>, pkt: string)
    ensures Clean(Query(h, t, pkt))
  {
    FixedAreClean();
    SupportedIsClean();
    HexIsClean(h.symbols(t));
    HexIsClean(h.frame(t));
    if StartsWith(pkt, "qMmemuVariables:") {
      HexIsClean(h.variables(t, pkt[16..]));
    }
  }

  lemma {:induction false} WriteIsClean(m: seq<Byte>, params: string)
    requires |m| > 0
    ensures WriteMem(m, params).Some? ==> Clean(WriteMem(m, params).value.1)
  {
    FixedAreClean();
  }

  lemma {:induction false} BreakpointIsClean<D(!new)>(r: Option<(Target<D>, BreakpointReply)>)
    ensures Breakpoint(r).Reply? ==> Clean(Breakpoint(r).text)
  {
    FixedAreClean();
  }

  /** Every reply is free of packet delimiters. */
  lemma {:induction false} RepliesAreClean<D(!new)>(h: Hooks<D>, t: Target<D>, pkt: string,
                                                    arrivals: seq<ContinueLoop.Arrival>)
    requires pkt != ""
    ensures var r := Exec(h, t, pkt, arrivals);
            r.Reply? ==> Clean(r.text) && '$' !in r.text && '#' !in r.text
  {
    match pkt[0]
    case 'q' | 'Q' => QueryIsClean(h, t, pkt);
    case 'g' =>
      RegsAreClean(t.cpu, 6);
      FixedAreClean();
    case 'm' => ReadIsClean(t.mem, pkt[1..]);
    case 'M' => WriteIsClean(t.mem, pkt[1..]);
    case 'Z' => BreakpointIsClean(h.insert(t, pkt[1..]));
    case 'z' => BreakpointIsClean(h.remove(t, pkt[1..]));
    case _ => FixedAreClean();
  }

  ghost predicate AllClean(sent: seq<Sent>) {
    forall w :: w in sent && w.Framed? ==> Clean(w.data)
  }

  lemma {:induction false} CleanSnoc(sent: seq<Sent>, acked: bool, text: string)
    requires AllClean(sent) && Clean(text)
    ensures AllClean(Acknowledged(sent, acked)) && AllClean(Acknowledged(sent, acked) + [Framed(text)])
  {
  }

  /** No session sends a packet whose payload could be mistaken for its frame, whatever the
      client sends and when. */
  lemma {:induction false} SessionIsClean<D(!new)>(h: Hooks<D>, input: string, when: (nat, nat) -> nat, wire: Wire,
                                                   end: nat, acks: nat -> bool, pos: nat, n: nat, t: Target<D>,
                                                   handled: seq<string>, sent: seq<Sent>)
    requires Steady(wire, end) && pos <= end && AllClean(sent)
    ensures AllClean(Session(wire, end, Dispatcher(h, input, when), acks, pos, n, t, handled, sent).sent)
    decreases end - pos
  {
    FixedAreClean();
    var r := wire(pos);
    CleanSnoc(sent, r.acked, "OK");
    if r.payload !in ["", "D", "k"] {
      var e := Dispatcher(h, input, when)(t, r.payload, r.next);
      RepliesAreClean(h, t, r.payload, Arrivals(input, when, r.next));
      if e.Reply? {
        CleanSnoc(sent, r.acked, e.text);
        var next := Next(end, r.next, e.taken, acks(n));
        SessionReply(wire, end, Dispatcher(h, input, when), acks, pos, n, t, handled, sent, r, e, next);
        SessionIsClean(h, input, when, wire, end, acks, next, n + 1, e.t, handled + [r.payload],
                       Acknowledged(sent, r.acked) + [Framed(e.text)]);
      }
    }
  }

  /** A clean reply is read back whole by the receiving side of the protocol, with its
      checksum in place, whatever noise stands in front of it. */
  lemma {:induction false} ReplyIsReadable(noise: string, text: string, rest: string)
    requires Quiet(noise) && Clean(text)
    ensures Receive(noise + Packet(text) + rest, {}, 0) == Received(text, |noise| + |text| + 4, true)
  {
    var input := noise + Packet(text) + rest;
    assert input[0..] == noise + (Packet(text) + rest);
    CoreShape(text, Byte2(Checksum(text)), Packet(text));
    ReceiveFrame(input, {}, 0, noise, text, Packet(text), rest);
  }

  // ---- What packets may change ----

  /** Only G, s and c change the registers, only M, s and c the memory, and only s, c, Z and z
      the debug context; Z and z are left to the breakpoint list. */
  lemma {:induction false} PacketFrames<D(!new)>(h: Hooks<D>, t: Target<D>, pkt: string,
                                                 arrivals: seq<ContinueLoop.Arrival>)
    requires pkt != "" && Exec(h, t, pkt, arrivals).Reply? && pkt != "s" && pkt[0] !in "cZz"
    ensures var t' := Exec(h, t, pkt, arrivals).t;
            && t'.dbg == t.dbg
            && (t'.cpu != t.cpu ==> pkt[0] == 'G' && t'.mem == t.mem)
            && (t'.mem != t.mem ==> pkt[0] == 'M' && t'.cpu == t.cpu)
  {
  }

  lemma {:induction false} ExecWrite<D(!new)>(h: Hooks<D>, t: Target<D>, pkt: string, w: (Memory, string))
    requires pkt != "" && pkt[0] == 'M' && WriteMem(t.mem, pkt[1..]) == Some(w)
    ensures Exec(h, t, pkt, []) == Reply(t.(mem := w.0), w.1, 0)
  {
  }

  lemma {:induction false} ExecRead<D(!new)>(h: Hooks<D>, t: Target<D>, pkt: string, text: string, read: Option<string>)
    requires pkt != "" && pkt[0] == 'm' && read == ReadMem(t.mem, pkt[1..]) && read == Some(text)
    ensures Exec(h, t, pkt, []) == Reply(t, text, 0)
  {
  }

  lemma {:induction false} Params(c: char, params: string)
    ensures ([c] + params)[0] == c && ([c] + params)[1..] == params
  {
  }

  lemma {:induction false} ServeStep<T>(exec: (T, string) -> Effect<T>, packets: seq<Incoming>, t: T,
                                        handled: seq<string>, sent: seq<Sent>)
    requires packets != [] && packets[0].acked && packets[0].payload !in ["", "D", "k"]
    requires exec(t, packets[0].payload).Reply?
    ensures var r := exec(t, packets[0].payload);
            Serve(exec, packets, t, handled, sent)
            == Serve(exec, packets[1..], r.t, handled + [packets[0].payload], sent + [Ack] + [Framed(r.text)])
  {
  }

  lemma {:induction false} ServeTwo<T>(exec: (T, string) -> Effect<T>, t: T, p: string, q: string)
    requires p !in ["", "D", "k"] && q !in ["", "D", "k"]
    requires exec(t, p).Reply? && exec(exec(t, p).t, q).Reply?
    ensures var r := exec(t, p);
            var r' := exec(r.t, q);
            Serve(exec, [Incoming(p, true), Incoming(q, true)], t, [], [])
            == Outcome([p, q], r'.t, [Ack, Framed(r.text), Ack, Framed(r'.text)], false)
  {
    var first, second := Incoming(p, true), Incoming(q, true);
    var r := exec(t, p);
    assert [first, second][1..] == [second] && [second][1..] == [];
    ServeStep(exec, [first, second], t, [], []);
    ServeStep(exec, [second], r.t, [p], [Ack, Framed(r.text)]);
    assert [] + [Ack] + [Framed(r.text)] == [Ack, Framed(r.text)] && [] + [p] == [p] && [p] + [q] == [p, q];
    var r' := exec(r.t, q);
    assert [Ack, Framed(r.text)] + [Ack] + [Framed(r'.text)] == [Ack, Framed(r.text), Ack, Framed(r'.text)];
  }

  lemma {:induction false} WriteEffect<D(!new)>(h: Hooks<D>, t: Target<D>, addrText: string, lenText: string,
                                                hex: string, p: string, m: Memory)
    requires ',' !in addrText && ':' !in addrText && ',' !in lenText && ':' !in lenText && Stoul(addrText).Some?
    requires p == "M" + (addrText + "," + lenText + ":" + hex)
             && m == PokeRange(t.mem, Wrap(Stoul(addrText).value), Bytes(hex))
    ensures p != "" && p[0] == 'M' && Exec(h, t, p, []) == Reply(t.(mem := m), "OK", 0)
  {
    WriteMemIs(t.mem, addrText, lenText, hex);
    Params('M', addrText + "," + lenText + ":" + hex);
    ExecWrite(h, t, p, (m, "OK"));
  }

  lemma {:induction false} ReadEffect<D(!new)>(h: Hooks<D>, t: Target<D>, addrText: string, readLen: string,
                                               text: string, q: string)
    requires q == "m" + (addrText + "," + readLen) && ReadMem(t.mem, addrText + "," + readLen) == Some(text)
    ensures q != "" && q[0] == 'm' && Exec(h, t, q, []) == Reply(t, text, 0)
  {
    Params('m', addrText + "," + readLen);
    ExecRead(h, t, q, text, Some(text));
  }

  lemma {:induction false} NotAnEnd(p: string)
    requires p != "" && p[0] != 'D' && p[0] != 'k'
    ensures p !in ["", "D", "k"]
  {
  }

  lemma {:induction false} WriteReadPackets<D(!new)>(h: Hooks<D>, t: Target<D>, addrText: string, lenText: string,
                                                     hex: string, readLen: string, p: string, q: string, m: Memory)
    requires ',' !in addrText && ':' !in addrText && ',' !in lenText && ':' !in lenText
    requires Stoul(addrText).Some? && Stoul(readLen).Some?
    requires AllHex(hex) && |hex| % 2 == 0 && |hex| / 2 <= |t.mem|
    requires |hex| / 2 <= MAX_READ && Wrap(Stoul(readLen).value) == |hex| / 2
    requires p == "M" + (addrText + "," + lenText + ":" + hex) && q == "m" + (addrText + "," + readLen)
    requires m == PokeRange(t.mem, Wrap(Stoul(addrText).value), Bytes(hex))
    ensures p !in ["", "D", "k"] && Exec(h, t, p, []) == Reply(t.(mem := m), "OK", 0)
    ensures q !in ["", "D", "k"] && Exec(h, t.(mem := m), q, []) == Reply(t.(mem := m), Lowered(hex), 0)
  {
    WriteEffect(h, t, addrText, lenText, hex, p, m);
    ReadBack(t.mem, addrText, lenText, hex, readLen, m);
    ReadEffect(h, t.(mem := m), addrText, readLen, Lowered(hex), q);
    NotAnEnd(p);
    NotAnEnd(q);
  }

  lemma {:induction false} ReadBack(m: Memory, addrText: string, lenText: string, hex: string, readLen: string,
                                    m': Memory)
    requires ',' !in addrText && ':' !in addrText && ',' !in lenText && ':' !in lenText
    requires Stoul(addrText).Some? && Stoul(readLen).Some?
    requires AllHex(hex) && |hex| % 2 == 0 && |hex| / 2 <= |m|
    requires |hex| / 2 <= MAX_READ && Wrap(Stoul(readLen).value) == |hex| / 2
    requires m' == PokeRange(m, Wrap(Stoul(addrText).value), Bytes(hex))
    ensures ReadMem(m', addrText + "," + readLen) == Some(Lowered(hex))
  {
    WriteMemIs(m, addrText, lenText, hex);
    WriteThenRead(m, addrText, lenText, hex, readLen);
  }

  lemma {:induction false} DeliveredTwo(items: seq<Item>)
    requires |items| == 2 && items[0].Frame? && items[1].Frame?
    ensures Delivered(items, 0, {}) == [Incoming(items[0].payload, true), Incoming(items[1].payload, true)]
  {
    AllDelivered(items, 0, 0);
    AllDelivered(items, 0, 1);
  }

  /** A client that writes memory and reads it back over the wire: whatever the noise, the
      checksums, the fate of the acknowledgements and the times at which bytes arrive, the
      reply to `m` holds the written digits, and nothing but the memory has changed. */
  lemma {:induction false} WriteReadOverWire<D(!new)>(h: Hooks<D>, t: Target<D>, when: (nat, nat) -> nat,
                                                      acks: nat -> bool, items: seq<Item>, tail: string,
                                                      addrText: string, lenText: string, hex: string, readLen: string)
    requires |items| == 2 && items[0].Frame? && items[1].Frame? && Acking(items) && Quiet(tail)
    requires items[0].payload == "M" + (addrText + "," + lenText + ":" + hex)
    requires items[1].payload == "m" + (addrText + "," + readLen)
    requires ',' !in addrText && ':' !in addrText && ',' !in lenText && ':' !in lenText
    requires Stoul(addrText).Some? && Stoul(readLen).Some?
    requires AllHex(hex) && |hex| % 2 == 0 && |hex| / 2 <= |t.mem|
    requires |hex| / 2 <= MAX_READ && Wrap(Stoul(readLen).value) == |hex| / 2
    ensures var input := Stream(items, tail);
            var o := Session(WireOf(input, {}), |input|, Dispatcher(h, input, when), acks, 0, 0, t, [], []);
            && !o.crashed && o.sent == [Ack, Framed("OK"), Ack, Framed(Lowered(hex))]
            && o.t == t.(mem := PokeRange(t.mem, Wrap(Stoul(addrText).value), Bytes(hex)))
  {
    DeliveredTwo(items);
    WaitingLeavesStream(h, Stream(items, tail), when, Delivered(items, 0, {}));
    SessionOf(Dispatcher(h, Stream(items, tail), when), Waiting(h), {}, acks, items, tail, t);
    WriteReadPackets(h, t, addrText, lenText, hex, readLen, items[0].payload, items[1].payload,
                     PokeRange(t.mem, Wrap(Stoul(addrText).value), Bytes(hex)));
    ServeTwo(Waiting(h), t, items[0].payload, items[1].payload);
  }

  // ---- Whole sessions of single commands ----

  function PacketsOf(items: seq<Item>): (packets: seq<Incoming>)
    ensures |packets| == |items| && forall i :: 0 <= i < |items| ==> packets[i] == items[i].Packet()
  {
    seq(|items|, i requires 0 <= i < |items| => items[i].Packet())
  }

  lemma {:induction false} DeliveredAre(items: seq<Item>)
    ensures Delivered(items, 0, {}) == PacketsOf(items)
  {
    AllDelivered(items, 0, 0);
    forall i | 0 <= i < |items|
      ensures Delivered(items, 0, {})[i] == PacketsOf(items)[i]
    {
      AllDelivered(items, 0, i);
    }
  }

  ghost predicate NoContinue(items: seq<Item>) {
    forall i :: 0 <= i < |items| ==> items[i].Packet().payload != "" && items[i].Packet().payload[0] != 'c'
  }

  /** The session that an acknowledging client plays over the wire. */
  ghost function Played<D(!new)>(h: Hooks<D>, t: Target<D>, when: (nat, nat) -> nat, acks: nat -> bool,
                                 items: seq<Item>, tail: string): Outcome<Target<D>>
  {
    var input := Stream(items, tail);
    Session(WireOf(input, {}), |input|, Dispatcher(h, input, when), acks, 0, 0, t, [], [])
  }

  lemma {:induction false} PlayedIsServe<D(!new)>(h: Hooks<D>, t: Target<D>, when: (nat, nat) -> nat, acks: nat -> bool,
                                                  items: seq<Item>, tail: string)
    requires Acking(items) && Quiet(tail) && NoContinue(items)
    ensures Played(h, t, when, acks, items, tail) == Serve(Waiting(h), PacketsOf(items), t, [], [])
  {
    DeliveredAre(items);
    WaitingLeavesStream(h, Stream(items, tail), when, PacketsOf(items));
    SessionOf(Dispatcher(h, Stream(items, tail), when), Waiting(h), {}, acks, items, tail, t);
  }

  ghost predicate AllSteps(packets: seq<Incoming>) {
    forall i :: 0 <= i < |packets| ==> packets[i] == Incoming("s", true)
  }

  /** `n` acknowledged packets, each answered with S05, behind what was sent before. */
  ghost predicate StepReplies(log: seq<Sent>, sent: seq<Sent>, n: nat) {
    && |sent| == |log| + 2 * n && sent[..|log|] == log
    && forall i :: 0 <= i < n ==> sent[|log| + 2 * i] == Ack && sent[|log| + 2 * i + 1] == Framed("S05")
  }

  lemma {:induction false} OneMoreReply(log: seq<Sent>, sent: seq<Sent>, n: nat)
    requires StepReplies(log + [Ack] + [Framed("S05")], sent, n)
    ensures StepReplies(log, sent, n + 1)
  {
    var log' := log + [Ack] + [Framed("S05")];
    assert sent[..|log|] == sent[..|log'|][..|log|];
    assert sent[|log|] == sent[..|log'|][|log|] && sent[|log| + 1] == sent[..|log'|][|log| + 1];
    forall i | 0 <= i < n + 1
      ensures sent[|log| + 2 * i] == Ack && sent[|log| + 2 * i + 1] == Framed("S05")
    {
      if i > 0 { assert sent[|log'| + 2 * (i - 1)] == Ack; }
    }
  }

  lemma {:induction false} ServeSteps<D(!new)>(h: Hooks<D>, packets: seq<Incoming>, t: Target<D>, handled: seq<string>,
                                               log: seq<Sent>)
    requires AllSteps(packets)
    ensures var o := Serve(Waiting(h), packets, t, handled, log);
            o.t == Iterated(h.step, t, |packets|) && !o.crashed && StepReplies(log, o.sent, |packets|)
    decreases |packets|
  {
    if packets != [] {
      assert packets[0].payload == "s";
      ServeStep(Waiting(h), packets, t, handled, log);
      ServeSteps(h, packets[1..], h.step(t), handled + ["s"], log + [Ack] + [Framed("S05")]);
      IteratedFirst(h.step, t, |packets| - 1);
      OneMoreReply(log, Serve(Waiting(h), packets, t, handled, log).sent, |packets| - 1);
    }
  }

  /** A client that steps: each packet `s` makes one step of the machine, and is answered S05. */
  lemma {:induction false} StepsOverWire<D(!new)>(h: Hooks<D>, t: Target<D>, when: (nat, nat) -> nat, acks: nat -> bool,
                                                  items: seq<Item>, tail: string)
    requires Acking(items) && Quiet(tail) && forall i :: 0 <= i < |items| ==> items[i].Frame? && items[i].payload == "s"
    ensures var o, n := Played(h, t, when, acks, items, tail), |items|;
            && o.t == Iterated(h.step, t, n) && !o.crashed && |o.sent| == 2 * n
            && forall i :: 0 <= i < n ==> o.sent[2 * i] == Ack && o.sent[2 * i + 1] == Framed("S05")
  {
    PlayedIsServe(h, t, when, acks, items, tail);
    ServeSteps(h, PacketsOf(items), t, [], []);
  }

  lemma {:induction false} ServeOne<T>(exec: (T, string) -> Effect<T>, t: T, p: Incoming)
    requires p.payload !in ["", "D", "k"]
    ensures var r := exec(t, p.payload);
            var s := if p.acked then [Ack] else [];
            Serve(exec, [p], t, [], []) == if r.Crash? then Outcome([p.payload], t, s, true)
                                           else Outcome([p.payload], r.t, s + [Framed(r.text)], false)
  {
    assert [p][1..] == [] && [] + [p.payload] == [p.payload] && [] + [Ack] == [Ack];
  }

  /** A session of one item. */
  lemma {:induction false} PlayedOne<D(!new)>(h: Hooks<D>, t: Target<D>, when: (nat, nat) -> nat, acks: nat -> bool,
                                              item: Item, tail: string)
    requires item.Ok() && Quiet(tail) && NoContinue([item])
    ensures Played(h, t, when, acks, [item], tail) == Serve(Waiting(h), [item.Packet()], t, [], [])
  {
    assert PacketsOf([item]) == [item.Packet()];
    PlayedIsServe(h, t, when, acks, [item], tail);
  }

  lemma {:induction false} SecondLetter(prefix: string, p: string)
    requires |prefix| > 1 && prefix <= p
    ensures |p| > 1 && p[0] == prefix[0] && p[1] == prefix[1]
  {
  }

  lemma {:induction false} SupportedQuery<D(!new)>(h: Hooks<D>, t: Target<D>, p: string)
    requires "qSupported" <= p
    ensures Query(h, t, p) == "PacketSize=4096;" + "swbreak+;hwbreak-;" + "mmemu-symbols+;" + "mmemu-variables+;"
                              + "mmemu-frame+"
  {
  }

  lemma {:induction false} ThreadQuery<D(!new)>(h: Hooks<D>, t: Target<D>, p: string)
    ensures p == "qAttached" ==> Query(h, t, p) == "1"
    ensures p == "qC" ==> Query(h, t, p) == "QC1"
  {
    if "qSupported" <= p { SecondLetter("qSupported", p); }
  }

  lemma {:induction false} ThreadListQuery<D(!new)>(h: Hooks<D>, t: Target<D>, p: string)
    ensures "qfThreadInfo" <= p ==> Query(h, t, p) == "m1"
    ensures "qsThreadInfo" <= p ==> Query(h, t, p) == "l"
  {
    if "qfThreadInfo" <= p { SecondLetter("qfThreadInfo", p); }
    if "qsThreadInfo" <= p { SecondLetter("qsThreadInfo", p); }
  }

  lemma {:induction false} ExecQuery<D(!new)>(h: Hooks<D>, t: Target<D>, p: string)
    requires p != "" && p[0] == 'q'
    ensures Exec(h, t, p, []) == Reply(t, Query(h, t, p), 0)
  {
  }

  /** What is asked about the server itself, and the answer. */
  lemma {:induction false} QueryFixed<D(!new)>(h: Hooks<D>, t: Target<D>, p: string, answer: string)
    requires || (p == "qAttached" && answer == "1") || (p == "qC" && answer == "QC1")
             || ("qfThreadInfo" <= p && answer == "m1") || ("qsThreadInfo" <= p && answer == "l")
             || ("qSupported" <= p
                 && answer == "PacketSize=4096;" + "swbreak+;hwbreak-;" + "mmemu-symbols+;" + "mmemu-variables+;"
                              + "mmemu-frame+")
    ensures p != "" && p[0] == 'q' && Exec(h, t, p, []) == Reply(t, answer, 0)
  {
    ThreadQuery(h, t, p);
    ThreadListQuery(h, t, p);
    if "qSupported" <= p { SupportedQuery(h, t, p); }
    ExecQuery(h, t, p);
  }

  lemma {:induction false} NoSuchQuery<D(!new)>(h: Hooks<D>, t: Target<D>, p: string)
    requires p != "" && p[0] != 'q'
    ensures Query(h, t, p) == ""
  {
    if "qSupported" <= p { SecondLetter("qSupported", p); }
    if "qfThreadInfo" <= p { SecondLetter("qfThreadInfo", p); }
    if "qsThreadInfo" <= p { SecondLetter("qsThreadInfo", p); }
    if "qMmemuSymbols:" <= p { SecondLetter("qMmemuSymbols:", p); }
    if "qMmemuVariables:" <= p { SecondLetter("qMmemuVariables:", p); }
  }

  lemma {:induction false} ExecFixed<D(!new)>(h: Hooks<D>, t: Target<D>, p: string, answer: string)
    requires p != ""
    requires || (p == [3 as char] && answer == "S02") || (p == "?" && answer == "S05") || (p[0] == 'H' && answer
             == "OK")
             || (p[0] !in ([3 as char] + "q?gGmMscZzH") && answer == "")
    ensures p[0] != 'c' && Exec(h, t, p, []) == Reply(t, answer, 0)
  {
    if p[0] == 'Q' { NoSuchQuery(h, t, p); }
  }

  lemma {:induction false} FixedReply<D(!new)>(h: Hooks<D>, t: Target<D>, when: (nat, nat) -> nat, acks: nat -> bool,
                                               item: Item, tail: string, p: string, answer: string)
    requires item.Ok() && Quiet(tail) && p == item.Packet().payload && p !in ["", "D", "k"] && p[0] != 'c'
    requires Exec(h, t, p, []) == Reply(t, answer, 0)
    ensures Played(h, t, when, acks, [item], tail)
            == Outcome([p], t, (if item.Frame? then [Ack] else []) + [Framed(answer)], false)
  {
    PlayedOne(h, t, when, acks, item, tail);
    ServeOne(Waiting(h), t, item.Packet());
  }

  /** The packets that are answered alike whatever the machine does, and change nothing: a
      bare interrupt, the stop reason, the thread, and what is not supported. */
  lemma {:induction false} FixedOverWire<D(!new)>(h: Hooks<D>, t: Target<D>, when: (nat, nat) -> nat, acks: nat -> bool,
                                                  item: Item, tail: string, p: string, answer: string)
    requires item.Ok() && Quiet(tail) && p == item.Packet().payload
    requires || (item.Ctrl? && answer == "S02") || (p == "?" && answer == "S05") || (p[0] == 'H' && answer == "OK")
             || (item.Frame? && p[0] !in ([3 as char] + "q?gGmMscZzHDk") && answer == "")
    ensures Played(h, t, when, acks, [item], tail)
            == Outcome([p], t, (if item.Frame? then [Ack] else []) + [Framed(answer)], false)
  {
    ExecFixed(h, t, p, answer);
    FixedReply(h, t, when, acks, item, tail, p, answer);
  }

  /** The same of the questions about the server itself. */
  lemma {:induction false} QueryOverWire<D(!new)>(h: Hooks<D>, t: Target<D>, when: (nat, nat) -> nat, acks: nat -> bool,
                                                  item: Item, tail: string, p: string, answer: string)
    requires item.Ok() && Quiet(tail) && item.Frame? && p == item.payload
    requires || (p == "qAttached" && answer == "1") || (p == "qC" && answer == "QC1")
             || ("qfThreadInfo" <= p && answer == "m1") || ("qsThreadInfo" <= p && answer == "l")
             || ("qSupported" <= p
                 && answer == "PacketSize=4096;" + "swbreak+;hwbreak-;" + "mmemu-symbols+;" + "mmemu-variables+;"
                              + "mmemu-frame+")
    ensures Played(h, t, when, acks, [item], tail) == Outcome([p], t, [Ack, Framed(answer)], false)
  {
    QueryFixed(h, t, p, answer);
    FixedReply(h, t, when, acks, item, tail, p, answer);
  }

  lemma {:induction false} ThirdLetter(p: string, q: string)
    requires "qM" <= q && q <= p
    ensures |p| > 1 && p[0] == 'q' && p[1] == 'M'
  {
  }

  lemma {:induction false} MetadataQuery<D(!new)>(h: Hooks<D>, t: Target<D>, p: string, params: string)
    ensures p == "qMmemuSymbols:" + params ==> Query(h, t, p) == HexOf(h.symbols(t))
    ensures p == "qMmemuFrame" ==> Query(h, t, p) == HexOf(h.frame(t))
  {
    if p == "qMmemuSymbols:" + params { ThirdLetter(p, "qMmemuSymbols:"); }
    if p == "qMmemuFrame" { ThirdLetter(p, p); }
  }

  lemma {:induction false} VariablesQuery<D(!new)>(h: Hooks<D>, t: Target<D>, p: string, params: string)
    requires p == "qMmemuVariables:" + params
    ensures Query(h, t, p) == HexOf(h.variables(t, params))
  {
    ThirdLetter(p, "qMmemuVariables:");
    assert "qMmemuVariables:"[6] == 'V' && p[6] == 'V' && "qMmemuSymbols:"[6] == 'S';
    assert p[16..] == params;
  }

  /** The metadata packets are answered their text in hex. */
  lemma {:induction false} MetadataOverWire<D(!new)>(h: Hooks<D>, t: Target<D>, when: (nat, nat) -> nat,
                                                     acks: nat -> bool, item: Item, tail: string, p: string,
                                                     params: string, text: seq<Byte>)
    requires item.Ok() && Quiet(tail) && item.Frame? && p == item.payload
    requires || (p == "qMmemuSymbols:" + params && text == h.symbols(t))
             || (p == "qMmemuVariables:" + params && text == h.variables(t, params))
             || (p == "qMmemuFrame" && text == h.frame(t))
    ensures Played(h, t, when, acks, [item], tail) == Outcome([p], t, [Ack, Framed(HexOf(text))], false)
  {
    MetadataQuery(h, t, p, params);
    if p == "qMmemuVariables:" + params { VariablesQuery(h, t, p, params); }
    assert p[0] == 'q';
    ExecQuery(h, t, p);
    FixedReply(h, t, when, acks, item, tail, p, HexOf(text));
  }

  /** Detach is answered and ends the session; kill ends it without an answer. */
  lemma {:induction false} EndOverWire<D(!new)>(h: Hooks<D>, t: Target<D>, when: (nat, nat) -> nat, acks: nat -> bool,
                                                item: Item, tail: string)
    requires item.Ok() && Quiet(tail) && item.Frame? && item.payload in ["D", "k"]
    ensures Played(h, t, when, acks, [item], tail)
            == Outcome([item.payload], t, if item.payload == "D" then [Ack, Framed("OK")] else [Ack], false)
  {
    PlayedOne(h, t, when, acks, item, tail);
    assert [] + [item.payload] == [item.payload] && [] + [Ack] == [Ack] && [Ack] + [Framed("OK")]
      == [Ack, Framed("OK")];
  }

  lemma {:induction false} ExecBreakpoint<D(!new)>(h: Hooks<D>, t: Target<D>, p: string, params: string)
    ensures p == "Z" + params ==> p[0] == 'Z' && Exec(h, t, p, []) == Breakpoint(h.insert(t, params))
    ensures p == "z" + params ==> p[0] == 'z' && Exec(h, t, p, []) == Breakpoint(h.remove(t, params))
  {
    Params('Z', params);
    Params('z', params);
  }

  /** `Z` and `z` reach the breakpoint list with the text behind their letter. */
  lemma {:induction false} BreakpointOverWire<D(!new)>(h: Hooks<D>, t: Target<D>, when: (nat, nat) -> nat,
                                                       acks: nat -> bool, item: Item, tail: string, params: string)
    requires item.Ok() && Quiet(tail) && item.Frame? && (item.payload == "Z" + params || item.payload == "z" + params)
    ensures var o := Played(h, t, when, acks, [item], tail);
            match if item.payload[0] == 'Z' then h.insert(t, params) else h.remove(t, params)
            case None => o.crashed && o.t == t && o.sent == [Ack]
            case Some(r) =>
              && !o.crashed && o.t == r.0
              && o.sent == [Ack, Framed(match r.1 case BpOk => "OK" case BpMalformed => "E01" case BpUnsupported => "")]
  {
    ExecBreakpoint(h, t, item.payload, params);
    PlayedOne(h, t, when, acks, item, tail);
    ServeOne(Waiting(h), t, item.Packet());
  }

  // ---- Registers over the wire ----

  lemma {:induction false} ExecRegs<D(!new)>(h: Hooks<D>, t: Target<D>, hex: string)
    ensures Exec(h, t, "G" + hex, []) == Reply(t.(cpu := WithGdbRegs(t.cpu, hex, 6)), "OK", 0)
    ensures Exec(h, t, "g", []) == Reply(t, RegsText(t.cpu, 6), 0)
  {
    Params('G', hex);
  }

  lemma {:induction false} RegsSession<D(!new)>(h: Hooks<D>, t: Target<D>, when: (nat, nat) -> nat, acks: nat -> bool,
                                                items: seq<Item>, tail: string, hex: string, c: CpuState)
    requires |items| == 2 && items[0].Frame? && items[1].Frame? && Acking(items) && Quiet(tail)
    requires items[0].payload == "G" + hex && items[1].payload == "g" && c == WithGdbRegs(t.cpu, hex, 6)
    ensures var o := Played(h, t, when, acks, items, tail);
            !o.crashed && o.sent == [Ack, Framed("OK"), Ack, Framed(RegsText(c, 6))] && o.t == t.(cpu := c)
  {
    Params('G', hex);
    PlayedIsServe(h, t, when, acks, items, tail);
    assert PacketsOf(items) == [Incoming(items[0].payload, true), Incoming("g", true)];
    ExecRegs(h, t, hex);
    ExecRegs(h, t.(cpu := c), hex);
    ServeTwo(Waiting(h), t, items[0].payload, "g");
  }

  /** A client that sets the registers and reads them back: it is answered the digits it has
      sent, and nothing but the six registers has changed. */
  lemma {:induction false} RegsOverWire<D(!new)>(h: Hooks<D>, t: Target<D>, when: (nat, nat) -> nat, acks: nat -> bool,
                                                 items: seq<Item>, tail: string, hex: string)
    returns (c: CpuState)
    requires |items| == 2 && items[0].Frame? && items[1].Frame? && Acking(items) && Quiet(tail)
    requires items[0].payload == "G" + hex && items[1].payload == "g" && |hex| == 14 && AllHex(hex)
    requires forall name :: name in {"A", "X", "Y", "SP", "PC", "P"} ==> name in t.cpu.regs
    ensures var o := Played(h, t, when, acks, items, tail);
            !o.crashed && o.sent == [Ack, Framed("OK"), Ack, Framed(Lowered(hex))] && o.t == t.(cpu := c)
    ensures c.regs.Keys == t.cpu.regs.Keys
    ensures c.regs["A"] == FromHex(hex[0], hex[1]) && c.regs["X"] == FromHex(hex[2], hex[3])
    ensures c.regs["Y"] == FromHex(hex[4], hex[5]) && c.regs["SP"] == FromHex(hex[6], hex[7])
    ensures c.pc == FromHex(hex[8], hex[9]) as int + 256 * FromHex(hex[10], hex[11]) as int
    ensures c.regs["P"] == FromHex(hex[12], hex[13])
    ensures forall n :: n in t.cpu.regs && n !in {"A", "X", "Y", "SP", "P"} ==> c.regs[n] == t.cpu.regs[n]
  {
    c := WithGdbRegs(t.cpu, hex, 6);
    RegsSession(h, t, when, acks, items, tail, hex, c);
    RegsFromPacket(t.cpu, hex);
    GdbRegsAre(t.cpu);
    WriteRegsThenRead(t.cpu, hex);
  }

  // ---- Continue ----

  /** How `c` ends: it makes the least number of steps, at least one, after which the machine is
      paused, the byte at PC is 0, a poll has read an interrupt byte, or there have been
      100000000; and it is answered S02 exactly if it was the interrupt. */
  lemma {:induction false} ContinueEnds<D(!new)>(h: Hooks<D>, t: Target<D>, pkt: string,
                                                 arrivals: seq<ContinueLoop.Arrival>)
    returns (n: nat)
    requires pkt != "" && pkt[0] == 'c'
    ensures 1 <= n <= 100_000_000
    ensures forall k :: 1 <= k < n ==>
              var s := Iterated(h.step, h.resume(t), k); !h.paused(s) && Peek(s.mem, s.cpu.pc) != 0
    ensures var r := Exec(h, t, pkt, arrivals);
            && r.Reply? && r.t == Iterated(h.step, h.resume(t), n)
            && (r.text == "S02" <==> !h.paused(r.t) && Peek(r.t.mem, r.t.cpu.pc) != 0 && n < 100_000_000)
            && (r.text != "S02" ==> r.text == "S05")
            && (r.text == "S02" ==> n % 1024 == 0 && 0 < r.taken <= |arrivals|
                                    && arrivals[r.taken - 1].c == 3 as char && arrivals[r.taken - 1].at <= n)
  {
    var e, s := EngineOf(h), h.resume(t);
    n := ContinueLoop.StopAfter(e, s, arrivals, 1);
    ContinueLoop.StopIsLeast(e, s, arrivals, 1);
    ContinueLoop.RunEnds(e, s, arrivals, n);
    forall k | 1 <= k < n
      ensures var s := Iterated(h.step, h.resume(t), k); !h.paused(s) && Peek(s.mem, s.cpu.pc) != 0
    {
      ContinueLoop.NoEarlierHalt(e, s, arrivals, n, k);
    }
  }

  /** It polls once every 1024 steps, but not behind the step that stops the machine, and takes
      one byte a poll at most. */
  lemma {:induction false} ContinueReads<D(!new)>(h: Hooks<D>, t: Target<D>, pkt: string,
                                                  arrivals: seq<ContinueLoop.Arrival>)
    returns (n: nat)
    requires pkt != "" && pkt[0] == 'c'
    ensures var r := Exec(h, t, pkt, arrivals);
            && 1 <= n && r.Reply? && r.t == Iterated(h.step, h.resume(t), n)
            && r.taken <= if h.paused(r.t) || Peek(r.t.mem, r.t.cpu.pc) == 0 then (n - 1) / 1024 else n / 1024
  {
    n := ContinueLoop.StopAfter(EngineOf(h), h.resume(t), arrivals, 1);
    ContinueLoop.TakenAtMost(EngineOf(h), h.resume(t), arrivals, n);
  }
}
