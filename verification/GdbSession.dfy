/** A whole GDB session: the receive/dispatch/send loop over any client stream. */
module GdbSession {
  import opened GdbPackets

  /** The effect of one packet on the server's state: its reply and how many bytes of the
      client's stream it read and dropped on the way, or an uncaught exception. */
  datatype Effect<T> = Crash | Reply(t: T, text: string, taken: nat)

  /** What a session did: the packets it handled, the final state, all bytes it sent. */
  datatype Outcome<T> = Outcome(handled: seq<string>, t: T, sent: seq<Sent>, crashed: bool)

  /** A packet as the server receives it, and whether it acknowledged it. */
  datatype Incoming = Incoming(payload: string, acked: bool)

  /** The receives of a connection, as a function of the stream offset. */
  type Wire = nat -> Received

  ghost predicate Reads(wire: Wire, input: string, cuts: set<nat>) {
    forall p: nat {:trigger Receive(input, cuts, p)} :: p <= |input| ==> wire(p) == Receive(input, cuts, p)
  }

  /** Receives stay on the stream, and one that returns something moves on. */
  ghost predicate Steady(wire: Wire, end: nat) {
    forall p: nat {:trigger wire(p)} :: p <= end ==>
      p <= wire(p).next <= end && (wire(p).payload != "" ==> p < wire(p).next)
  }

  ghost function WireOf(input: string, cuts: set<nat>): (wire: Wire)
    ensures Reads(wire, input, cuts) && Steady(wire, |input|)
  {
    (p: nat) => if p <= |input| then Receive(input, cuts, p) else Received("", p, false)
  }

  /** Where the stream stands behind a reply: the packet itself has read `taken` bytes, as far
      as there are any, and the wait for the acknowledgement one more if `ack`. */
  function Next(end: nat, pos: nat, taken: nat, ack: bool): (next: nat)
    requires pos <= end
    ensures pos <= next <= end && next <= pos + taken + 1
  {
    var p := if pos + taken <= end then pos + taken else end;
    if ack && p < end then p + 1 else p
  }

  /** The session from stream offset `pos` on, after what was `handled` and `sent` before.
      `exec` is given the offset behind the packet; `acks(n)` tells whether the wait for the
      acknowledgement of reply number `n` finds something to read. It lasts until detach,
      kill, an exception or a receive that returns nothing. */
  ghost function Session<T>(wire: Wire, end: nat, exec: (T, string, nat) -> Effect<T>, acks: nat -> bool, pos: nat,
                            n: nat, t: T, handled: seq<string>, sent: seq<Sent>): Outcome<T>
    requires Steady(wire, end) && pos <= end
    decreases end - pos
  {
    var p, s := wire(pos).payload, Acknowledged(sent, wire(pos).acked);
    if p == "" then Outcome(handled, t, s, false)
    else if p == "D" then Outcome(handled + [p], t, s + [Framed("OK")], false)
    else if p == "k" then Outcome(handled + [p], t, s, false)
    else
      match exec(t, p, wire(pos).next)
      case Crash => Outcome(handled + [p], t, s, true)
      case Reply(t', text, taken) =>
        Session(wire, end, exec, acks, Next(end, wire(pos).next, taken, acks(n)), n + 1, t', handled + [p],
          s + [Framed(text)])
  }

  /** What a server receives whose packets leave the stream alone. An empty payload ends the
      session, whether or not it was acknowledged. */
  ghost function Receipts(wire: Wire, end: nat, acks: nat -> bool, pos: nat, n: nat): seq<Incoming>
    requires Steady(wire, end) && pos <= end
    decreases end - pos
  {
    var r := wire(pos);
    if r.payload == "" then if r.acked then [Incoming("", true)] else []
    else [Incoming(r.payload, r.acked)] + Receipts(wire, end, acks, Next(end, r.next, 0, acks(n)), n + 1)
  }

  /** The session over a list of packets. */
  function Serve<T>(exec: (T, string) -> Effect<T>, packets: seq<Incoming>, t: T, handled: seq<string>,
                    sent: seq<Sent>): Outcome<T>
    decreases |packets|
  {
    if packets == [] then Outcome(handled, t, sent, false)
    else
      var p, s := packets[0].payload, Acknowledged(sent, packets[0].acked);
      if p == "" then Outcome(handled, t, s, false)
      else if p == "D" then Outcome(handled + [p], t, s + [Framed("OK")], false)
      else if p == "k" then Outcome(handled + [p], t, s, false)
      else
        match exec(t, p)
        case Crash => Outcome(handled + [p], t, s, true)
        case Reply(t', text, _) => Serve(exec, packets[1..], t', handled + [p], s + [Framed(text)])
  }

  function Acknowledged(sent: seq<Sent>, acked: bool): seq<Sent> {
    if acked then sent + [Ack] else sent
  }

  /** One packet that is answered. */
  lemma {:induction false} SessionReply<T>(wire: Wire, end: nat, exec: (T, string, nat) -> Effect<T>, acks: nat -> bool,
                                           pos: nat, n: nat, t: T, handled: seq<string>, sent: seq<Sent>, r: Received,
                                           e: Effect<T>, next: nat)
    requires Steady(wire, end) && pos <= end && r == wire(pos) && r.payload !in ["", "D", "k"]
    requires e == exec(t, r.payload, r.next) && e.Reply? && next == Next(end, r.next, e.taken, acks(n))
    ensures next <= end && Session(wire, end, exec, acks, pos, n, t, handled, sent)
            == Session(wire, end, exec, acks, next, n + 1, e.t, handled + [r.payload],
                       Acknowledged(sent, r.acked) + [Framed(e.text)])
  {
  }

  /** A receive that ends the session, with the log it ends with. */
  lemma {:induction false} SessionEnd<T>(wire: Wire, end: nat, exec: (T, string, nat) -> Effect<T>, acks: nat -> bool,
                                         pos: nat, n: nat, t: T, handled: seq<string>, sent: seq<Sent>, r: Received,
                                         o: Outcome<T>)
    requires Steady(wire, end) && pos <= end && r == wire(pos)
    requires o.t == t && o.handled == if r.payload == "" then handled else handled + [r.payload]
    requires || (r.payload in ["", "k"] && o.sent == Acknowledged(sent, r.acked) && !o.crashed)
             || (r.payload == "D" && o.sent == Acknowledged(sent, r.acked) + [Framed("OK")] && !o.crashed)
             || (r.payload !in ["", "D", "k"] && exec(t, r.payload, r.next).Crash?
               && o.sent == Acknowledged(sent, r.acked) && o.crashed)
    ensures Session(wire, end, exec, acks, pos, n, t, handled, sent) == o
  {
  }

  /** The session loop, over the receives of the connection. */
  method RunSession<T>(conn: Connection, ghost wire: Wire, exec: (T, string, nat) -> Effect<T>, acks: nat -> bool,
                       t0: T)
    returns (t: T, crashed: bool, ghost handled: seq<string>)
    requires conn.Valid() && conn.log == []
    requires Reads(wire, conn.input, conn.cuts) && Steady(wire, |conn.input|)
    modifies conn
    ensures conn.Valid()
    ensures Outcome(handled, t, conn.log, crashed)
            == Session(wire, |conn.input|, exec, acks, old(conn.pos), 0, t0, [], [])
  {
    t, crashed, handled := t0, false, [];
    var n: nat := 0;
    ghost var end := |conn.input|;
    ghost var o := Session(wire, end, exec, acks, conn.pos, 0, t0, [], []);
    while true
      invariant conn.Valid() && !crashed
      invariant o == Session(wire, end, exec, acks, conn.pos, n, t, handled, conn.log)
      decreases |conn.input| - conn.pos
    {
      ghost var pos, log, before := conn.pos, conn.log, handled;
      var pkt, acked := conn.RecvPacket();
      ghost var r := Received(pkt, conn.pos, acked);
      assert r == wire(pos);
      if pkt != "" { handled := handled + [pkt]; }
      if pkt == "" || pkt == "D" || pkt == "k" {
        if pkt == "D" { conn.SendPacket("OK", false); }
        SessionEnd(wire, end, exec, acks, pos, n, t, before, log, r, Outcome(handled, t, conn.log, false));
        return;
      }
      match exec(t, pkt, conn.pos) {
        case Crash =>
          crashed := true;
          SessionEnd(wire, end, exec, acks, pos, n, t, before, log, r, Outcome(handled, t, conn.log, true));
          return;
        case Reply(t', text, taken) =>
          conn.Drop(taken);
          conn.SendPacket(text, acks(n));
          SessionReply(wire, end, exec, acks, pos, n, t, before, log, r, Reply(t', text, taken), conn.pos);
          t, n := t', n + 1;
      }
    }
  }

  /** `handleClient` on a fresh connection. */
  method HandleClient<T>(conn: Connection, exec: (T, string, nat) -> Effect<T>, acks: nat -> bool, t0: T)
    returns (t: T, crashed: bool, ghost handled: seq<string>)
    requires conn.Valid() && conn.log == []
    modifies conn
    ensures conn.Valid()
    ensures Outcome(handled, t, conn.log, crashed)
            == Session(WireOf(conn.input, conn.cuts), |conn.input|, exec, acks, old(conn.pos), 0, t0, [], [])
  {
    t, crashed, handled := RunSession(conn, WireOf(conn.input, conn.cuts), exec, acks, t0);
  }

  /** These packets leave the stream alone, and do not depend on where they stand in it. */
  ghost predicate LeaveStream<T(!new)>(exec: (T, string, nat) -> Effect<T>, exec0: (T, string) -> Effect<T>,
                                       packets: seq<Incoming>) {
    forall i: nat, t: T, pos: nat {:trigger exec(t, packets[i].payload, pos)} :: i < |packets| ==>
      exec(t, packets[i].payload, pos) == exec0(t, packets[i].payload)
      && (exec(t, packets[i].payload, pos).Reply? ==> exec(t, packets[i].payload, pos).taken == 0)
  }

  lemma {:induction false} LeaveRest<T(!new)>(exec: (T, string, nat) -> Effect<T>, exec0: (T, string) -> Effect<T>,
                                              packets: seq<Incoming>, rest: seq<Incoming>)
    requires LeaveStream(exec, exec0, packets) && packets != [] && rest == packets[1..]
    ensures LeaveStream(exec, exec0, rest)
  {
    forall i: nat, t: T, pos: nat | i < |rest|
      ensures exec(t, rest[i].payload, pos) == exec0(t, rest[i].payload)
              && (exec(t, rest[i].payload, pos).Reply? ==> exec(t, rest[i].payload, pos).taken == 0)
    {
      assert rest[i] == packets[i + 1];
    }
  }

  lemma {:induction false} ReceiptsStep(wire: Wire, end: nat, acks: nat -> bool, pos: nat, n: nat, next: nat)
    requires Steady(wire, end) && pos <= end && wire(pos).payload != "" && next == Next(end, wire(pos).next, 0, acks(n))
    ensures next <= end && pos < next
    ensures Receipts(wire, end, acks, pos, n)
            == [Incoming(wire(pos).payload, wire(pos).acked)] + Receipts(wire, end, acks, next, n + 1)
  {
  }

  /** A session whose packets leave the stream alone is the session over its list of packets. */
  lemma {:induction false} SessionIsServe<T(!new)>(wire: Wire, end: nat, exec: (T, string, nat) -> Effect<T>,
                                                   exec0: (T, string) -> Effect<T>, acks: nat -> bool, pos: nat, n: nat,
                                                   t: T, handled: seq<string>, sent: seq<Sent>, packets: seq<Incoming>)
    requires Steady(wire, end) && pos <= end && packets == Receipts(wire, end, acks, pos, n)
    requires LeaveStream(exec, exec0, packets)
    ensures Session(wire, end, exec, acks, pos, n, t, handled, sent) == Serve(exec0, packets, t, handled, sent)
    decreases end - pos
  {
    var r := wire(pos);
    if r.payload !in ["", "D", "k"] {
      var next := Next(end, r.next, 0, acks(n));
      ReceiptsStep(wire, end, acks, pos, n, next);
      var rest := Receipts(wire, end, acks, next, n + 1);
      assert packets[0] == Incoming(r.payload, r.acked) && packets[1..] == rest;
      var e := exec(t, r.payload, r.next);
      assert e == exec(t, packets[0].payload, r.next) == exec0(t, packets[0].payload);
      if e.Reply? {
        LeaveRest(exec, exec0, packets, rest);
        SessionReply(wire, end, exec, acks, pos, n, t, handled, sent, r, e, next);
        SessionIsServe(wire, end, exec, exec0, acks, next, n + 1, e.t, handled + [r.payload],
                       Acknowledged(sent, r.acked) + [Framed(e.text)], rest);
      }
    }
  }

  // ---- Client streams ----

  /** What a client sends: noise, then a framed packet or a bare interrupt. */
  datatype Item = Frame(noise: string, payload: string, cs: string) | Ctrl(noise: string) {

    /** The noise holds no packet start, the payload no packet end; the checksum is not looked at. */
    ghost predicate Ok() {
      && '$' !in noise && INTERRUPT !in noise
      && (Frame? ==> payload != "" && '#' !in payload && |cs| == 2)
    }

    function Core(): (s: string)
      ensures |s| > 0
    {
      if Frame? then "$" + payload + "#" + cs else [INTERRUPT]
    }

    function Text(): (s: string)
      ensures |s| > 0
    {
      noise + Core()
    }

    function Packet(): Incoming {
      if Frame? then Incoming(payload, true) else Incoming([INTERRUPT], false)
    }

    /** Offset of the byte between the two checksum digits. */
    function Middle(): nat {
      if Frame? then |noise| + |payload| + 3 else 0
    }
  }

  function Stream(items: seq<Item>, tail: string): string {
    if items == [] then tail else items[0].Text() + Stream(items[1..], tail)
  }

  /** A client that waits for each reply and acknowledges it: at least that acknowledgement
      stands in front of every item but the first. */
  ghost predicate Acking(items: seq<Item>) {
    && (forall i :: 0 <= i < |items| ==> items[i].Ok())
    && (forall i :: 1 <= i < |items| ==> items[i].noise != "")
  }

  ghost predicate Quiet(s: string) {
    '$' !in s && INTERRUPT !in s
  }

  /** The packets of the items up to the first one whose checksum a short read splits. */
  function Delivered(items: seq<Item>, at: nat, cuts: set<nat>): seq<Incoming> {
    if items == [] || (items[0].Frame? && at + items[0].Middle() in cuts) then []
    else [items[0].Packet()] + Delivered(items[1..], at + |items[0].Text()|, cuts)
  }

  /** Noise of any length in front of a packet start is skipped. */
  lemma {:induction false} SkipsTo(input: string, pos: nat, i: nat)
    requires pos <= i < |input| && (input[i] == '$' || input[i] == INTERRUPT)
    requires forall j :: pos <= j < i ==> input[j] != '$' && input[j] != INTERRUPT
    ensures SkipNoise(input, pos) == i
  {
    var s := SkipNoise(input, pos);
    assert s <= i;
  }

  /** A frame at known offsets: `$` at `i`, the first `#` behind it at `e`. */
  lemma {:induction false} ReceiveFrameAt(input: string, cuts: set<nat>, pos: nat, i: nat, e: nat)
    requires pos <= i < e && e + 2 < |input| && input[i] == '$' && input[e] == '#'
    requires forall j :: pos <= j < i ==> input[j] != '$' && input[j] != INTERRUPT
    requires forall j :: i < j < e ==> input[j] != '#'
    ensures var r := Receive(input, cuts, pos);
            if e + 2 in cuts then r.payload == "" && !r.acked else r == Received(input[i + 1..e], e + 3, true)
  {
    SkipsTo(input, pos, i);
    assert FindFrom(input, '#', i + 1) <= e;
  }

  lemma {:induction false} SliceAt(s: string, pos: nat, a: string, b: string, c: string)
    requires pos <= |s| && s[pos..] == a + (b + c)
    ensures pos + |a| + |b| <= |s| && s[pos + |a|..pos + |a| + |b|] == b
    ensures s[pos..pos + |a|] == a && s[pos + |a| + |b|..] == c
  {
    assert s[pos..][..|a|] == a && s[pos..][|a|..] == b + c;
    assert s[pos + |a|..] == b + c;
  }

  lemma {:induction false} CoreShape(payload: string, cs: string, core: string)
    requires core == "$" + payload + "#" + cs
    ensures |core| == |payload| + 2 + |cs| && core[0] == '$' && core[|payload| + 1] == '#'
            && core[1..|payload| + 1] == payload
  {
  }

  lemma {:induction false} ReceiveFrame(input: string, cuts: set<nat>, pos: nat, noise: string, payload: string,
                                        core: string, rest: string)
    requires pos <= |input| && Quiet(noise) && '#' !in payload
    requires |core| == |payload| + 4 && core[0] == '$' && core[|payload| + 1] == '#'
             && core[1..|payload| + 1] == payload
    requires input[pos..] == noise + (core + rest)
    ensures var r := Receive(input, cuts, pos);
            if pos + |noise| + |payload| + 3 in cuts then r.payload == "" && !r.acked
            else r == Received(payload, pos + |noise| + |payload| + 4, true)
  {
    var i := pos + |noise|;
    var e := i + 1 + |payload|;
    SliceAt(input, pos, noise, core, rest);
    var body := input[i..i + |core|];
    assert body == core;
    assert input[i] == body[0] && input[e] == body[e - i] && input[i + 1..e] == body[1..e - i] == payload;
    assert forall j :: pos <= j < i ==> input[j] == input[pos..pos + |noise|][j - pos];
    assert forall j :: i < j < e ==> input[j] == input[i + 1..e][j - i - 1];
    ReceiveFrameAt(input, cuts, pos, i, e);
  }

  lemma {:induction false} ReceiveCtrl(input: string, cuts: set<nat>, pos: nat, noise: string, rest: string)
    requires pos <= |input| && Quiet(noise) && input[pos..] == noise + ([INTERRUPT] + rest)
    ensures Receive(input, cuts, pos) == Received([INTERRUPT], pos + |noise| + 1, false)
  {
    SliceAt(input, pos, noise, [INTERRUPT], rest);
    var i := pos + |noise|;
    assert input[i] == input[i..i + 1][0];
    assert forall j :: pos <= j < i ==> input[j] == input[pos..pos + |noise|][j - pos];
    SkipsTo(input, pos, i);
  }

  lemma {:induction false} Regroup(a: string, b: string, c: string)
    ensures (a + b) + c == a + (b + c)
  {
  }

  lemma {:induction false} ReceiveItem(input: string, cuts: set<nat>, pos: nat, item: Item, rest: string)
    requires pos <= |input| && item.Ok() && input[pos..] == item.Text() + rest
    ensures var r := Receive(input, cuts, pos);
            if item.Frame? && pos + item.Middle() in cuts then r.payload == "" && !r.acked
            else r == Received(item.Packet().payload, pos + |item.Text()|, item.Packet().acked)
  {
    Regroup(item.noise, item.Core(), rest);
    if item.Frame? {
      CoreShape(item.payload, item.cs, item.Core());
      ReceiveFrame(input, cuts, pos, item.noise, item.payload, item.Core(), rest);
    } else {
      ReceiveCtrl(input, cuts, pos, item.noise, rest);
    }
  }

  lemma {:induction false} ReceiveNothing(input: string, cuts: set<nat>, pos: nat)
    requires pos <= |input| && Quiet(input[pos..])
    ensures Receive(input, cuts, pos) == Received("", |input|, false)
  {
    assert forall j :: pos <= j < |input| ==> input[j] == input[pos..][j - pos];
  }

  // ---- A byte lost to the wait for an acknowledgement ----

  function WithoutFirst(items: seq<Item>): seq<Item>
    requires items != [] && items[0].noise != ""
  {
    [items[0].(noise := items[0].noise[1..])] + items[1..]
  }

  lemma {:induction false} WithoutFirstOk(items: seq<Item>, tail: string)
    requires items != [] && items[0].noise != "" && Acking(items)
    ensures Acking(WithoutFirst(items))
    ensures Stream(WithoutFirst(items), tail) == Stream(items, tail)[1..]
  {
    var it, rest := items[0], Stream(items[1..], tail);
    var it' := it.(noise := it.noise[1..]);
    assert WithoutFirst(items)[0] == it' && WithoutFirst(items)[1..] == items[1..];
    assert it'.Core() == it.Core();
    DropFirst(it.noise, it.Core());
    DropFirst(it.Text(), rest);
    assert forall c :: c in it'.noise ==> c in it.noise;
  }

  lemma {:induction false} DropFirst(a: string, b: string)
    requires a != ""
    ensures (a + b)[1..] == a[1..] + b
  {
  }

  lemma {:induction false} WithoutFirstSame(items: seq<Item>, at: nat, cuts: set<nat>)
    requires items != [] && items[0].noise != ""
    ensures Delivered(WithoutFirst(items), at + 1, cuts) == Delivered(items, at, cuts)
  {
    var items' := WithoutFirst(items);
    assert items'[1..] == items[1..] && |items'[0].Text()| == |items[0].Text()| - 1;
  }

  lemma {:induction false} DeliveredStep(items: seq<Item>, at: nat, cuts: set<nat>)
    requires items != [] && !(items[0].Frame? && at + items[0].Middle() in cuts)
    ensures Delivered(items, at, cuts) == [items[0].Packet()] + Delivered(items[1..], at + |items[0].Text()|, cuts)
  {
  }

  lemma {:induction false} WireItem(wire: Wire, input: string, cuts: set<nat>, pos: nat, item: Item, rest: string)
    requires Reads(wire, input, cuts)
    requires pos <= |input| && item.Ok() && input[pos..] == item.Text() + rest
    ensures var after := pos + |item.Text()|;
            && after <= |input| && input[after..] == rest
            && if item.Frame? && pos + item.Middle() in cuts then wire(pos).payload == "" && !wire(pos).acked
               else wire(pos) == Received(item.Packet().payload, after, item.Packet().acked)
  {
    ReceiveItem(input, cuts, pos, item, rest);
    assert input[pos + |item.Text()|..] == input[pos..][|item.Text()|..];
  }

  lemma {:induction false} WireEnd(wire: Wire, input: string, cuts: set<nat>, pos: nat)
    requires Reads(wire, input, cuts) && pos <= |input| && Quiet(input[pos..])
    ensures wire(pos) == Received("", |input|, false)
  {
    ReceiveNothing(input, cuts, pos);
  }

  /** Whatever the noise, wherever reads fall short, and whether each acknowledgement is
      consumed by the wait for it or left in the stream: the server receives the client's
      packets in order, up to the first whose checksum is split between two reads. */
  lemma {:induction false} ReceivesAll(wire: Wire, input: string, cuts: set<nat>, acks: nat -> bool, pos: nat, n: nat,
                                       items: seq<Item>, tail: string)
    requires Reads(wire, input, cuts) && Steady(wire, |input|)
    requires pos <= |input| && Acking(items) && Quiet(tail) && input[pos..] == Stream(items, tail)
    ensures Receipts(wire, |input|, acks, pos, n) == Delivered(items, pos, cuts)
    decreases |items|, 0
  {
    if items == [] {
      WireEnd(wire, input, cuts, pos);
    } else {
      var item, after := items[0], pos + |items[0].Text()|;
      WireItem(wire, input, cuts, pos, item, Stream(items[1..], tail));
      if !(item.Frame? && pos + item.Middle() in cuts) {
        ReceivesRest(wire, input, cuts, acks, after, Next(|input|, after, 0, acks(n)), n + 1, items[1..], tail);
        DeliveredStep(items, pos, cuts);
      }
    }
  }

  /** The same behind a reply, whose wait for the acknowledgement may have read one byte. */
  lemma {:induction false} ReceivesRest(wire: Wire, input: string, cuts: set<nat>, acks: nat -> bool, after: nat,
                                        next: nat, n: nat, items: seq<Item>, tail: string)
    requires Reads(wire, input, cuts) && Steady(wire, |input|)
    requires after <= next <= |input| && next <= after + 1
    requires Acking(items) && (items != [] ==> items[0].noise != "") && Quiet(tail)
    requires input[after..] == Stream(items, tail)
    ensures Receipts(wire, |input|, acks, next, n) == Delivered(items, after, cuts)
    decreases |items|, 1
  {
    if next == after {
      ReceivesAll(wire, input, cuts, acks, next, n, items, tail);
    } else {
      assert input[next..] == input[after..][1..];
      if items == [] {
        ReceivesAll(wire, input, cuts, acks, next, n, items, tail[1..]);
      } else {
        WithoutFirstOk(items, tail);
        WithoutFirstSame(items, after, cuts);
        ReceivesAll(wire, input, cuts, acks, next, n, WithoutFirst(items), tail);
      }
    }
  }

  /** With no checksum split, every packet is delivered, in order. */
  lemma {:induction false} AllDelivered(items: seq<Item>, at: nat, i: nat)
    ensures |Delivered(items, at, {})| == |items|
    ensures i < |items| ==> Delivered(items, at, {})[i] == items[i].Packet()
  {
    if items != [] {
      DeliveredStep(items, at, {});
      AllDelivered(items[1..], at + |items[0].Text()|, if i == 0 then 0 else i - 1);
    }
  }

  /** The whole session of an acknowledging client, in terms of what the client sent, if the
      packets leave the stream alone. */
  lemma {:induction false} SessionOf<T(!new)>(exec: (T, string, nat) -> Effect<T>, exec0: (T, string) -> Effect<T>,
                                              cuts: set<nat>, acks: nat -> bool, items: seq<Item>, tail: string, t: T)
    requires Acking(items) && Quiet(tail) && LeaveStream(exec, exec0, Delivered(items, 0, cuts))
    ensures var input := Stream(items, tail);
            Session(WireOf(input, cuts), |input|, exec, acks, 0, 0, t, [], [])
            == Serve(exec0, Delivered(items, 0, cuts), t, [], [])
  {
    var input := Stream(items, tail);
    assert input[0..] == input;
    ReceivesAll(WireOf(input, cuts), input, cuts, acks, 0, 0, items, tail);
    SessionIsServe(WireOf(input, cuts), |input|, exec, exec0, acks, 0, 0, t, [], [], Delivered(items, 0, cuts));
  }

  // ---- Packets that read the stream themselves ----

  /** What is left of the client's items when `k` bytes of their stream have been dropped: an
      item is lost once its first byte is, and what is left of it is noise. */
  function Surviving(items: seq<Item>, k: nat): seq<Item>
    decreases |items|
  {
    if items == [] then []
    else
      var item, size := items[0], |items[0].Text()|;
      if k <= |item.noise| then [item.(noise := item.noise[k..])] + items[1..]
      else if k >= size then Surviving(items[1..], k - size)
      else if |items| == 1 then []
      else [items[1].(noise := item.Text()[k..] + items[1].noise)] + items[2..]
  }

  /** The noise behind the last item then. */
  function TailLeft(items: seq<Item>, tail: string, k: nat): string
    decreases |items|
  {
    if items == [] then if k <= |tail| then tail[k..] else ""
    else
      var size := |items[0].Text()|;
      if k <= |items[0].noise| then tail
      else if k >= size then TailLeft(items[1..], tail, k - size)
      else if |items| == 1 then items[0].Text()[k..] + tail
      else tail
  }

  /** Packets and checksums hold no packet start and no interrupt. */
  ghost predicate Plain(items: seq<Item>) {
    forall i :: 0 <= i < |items| ==>
      items[i].Ok() && (items[i].Frame? ==> Quiet(items[i].payload) && Quiet(items[i].cs))
  }

  lemma {:induction false} QuietAppend(a: string, b: string)
    requires Quiet(a) && Quiet(b)
    ensures Quiet(a + b)
  {
  }

  lemma {:induction false} QuietDrop(s: string, k: nat)
    requires Quiet(s) && k <= |s|
    ensures Quiet(s[k..])
  {
  }

  lemma {:induction false} CoreRest(payload: string, cs: string, j: nat)
    requires 0 < j <= |payload| + |cs| + 2 && Quiet(payload) && Quiet(cs)
    ensures Quiet(("$" + payload + "#" + cs)[j..])
  {
    QuietAppend(payload, "#");
    QuietAppend(payload + "#", cs);
    QuietDrop(payload + "#" + cs, j - 1);
    assert ("$" + payload + "#" + cs)[j..] == (payload + "#" + cs)[j - 1..];
  }

  /** The rest of an item whose first byte is gone is noise. */
  lemma {:induction false} RestIsQuiet(item: Item, k: nat)
    requires Plain([item]) && |item.noise| < k <= |item.Text()|
    ensures Quiet(item.Text()[k..])
  {
    assert [item][0] == item;
    DropMore(item.noise, item.Core(), k);
    if item.Frame? { CoreRest(item.payload, item.cs, k - |item.noise|); }
  }

  lemma {:induction false} DropMore(a: string, b: string, k: nat)
    requires k <= |a + b|
    ensures (a + b)[k..] == if k <= |a| then a[k..] + b else b[k - |a|..]
  {
  }

  lemma {:induction false} StreamFirst(items: seq<Item>, tail: string, item: Item, rest: seq<Item>)
    requires items == [item] + rest
    ensures Stream(items, tail) == item.noise + (item.Core() + Stream(rest, tail))
    ensures Stream(items, tail) == item.Text() + Stream(rest, tail)
  {
    assert items[1..] == rest;
  }

  lemma {:induction false} PlainRest(items: seq<Item>, i: nat)
    requires Plain(items) && i <= |items|
    ensures Plain(items[i..])
  {
  }

  /** The first item with other noise in front. */
  lemma {:induction false} Renoised(items: seq<Item>, tail: string, noise: string)
    requires Plain(items) && items != [] && Quiet(noise)
    ensures var items' := [items[0].(noise := noise)] + items[1..];
            Plain(items') && Stream(items', tail) == noise + (items[0].Core() + Stream(items[1..], tail))
  {
    var it := items[0].(noise := noise);
    StreamFirst([it] + items[1..], tail, it, items[1..]);
    assert it.Core() == items[0].Core();
  }

  /** The stream without its first `k` bytes is the stream of what survives. */
  lemma {:induction false} StreamSurviving(items: seq<Item>, tail: string, k: nat)
    requires Plain(items) && Quiet(tail) && k <= |Stream(items, tail)|
    ensures Plain(Surviving(items, k)) && Quiet(TailLeft(items, tail, k))
    ensures Stream(Surviving(items, k), TailLeft(items, tail, k)) == Stream(items, tail)[k..]
    decreases |items|
  {
    if items == [] {
      QuietDrop(tail, k);
    } else {
      var item, rest, text := items[0], items[1..], Stream(items[1..], tail);
      PlainRest(items, 1);
      StreamFirst(items, tail, item, rest);
      if k <= |item.noise| {
        QuietDrop(item.noise, k);
        Renoised(items, tail, item.noise[k..]);
        DropMore(item.noise, item.Core() + text, k);
      } else {
        DropMore(item.Text(), text, k);
        if k >= |item.Text()| {
          StreamSurviving(rest, tail, k - |item.Text()|);
        } else {
          SurvivingNext(items, tail, k);
        }
      }
    }
  }

  lemma {:induction false} SurvivingNext(items: seq<Item>, tail: string, k: nat)
    requires Plain(items) && Quiet(tail) && items != [] && |items[0].noise| < k < |items[0].Text()|
    ensures Plain(Surviving(items, k)) && Quiet(TailLeft(items, tail, k))
    ensures Stream(Surviving(items, k), TailLeft(items, tail, k)) == items[0].Text()[k..] + Stream(items[1..], tail)
  {
    var left, rest := items[0].Text()[k..], items[1..];
    RestIsQuiet(items[0], k);
    if |items| == 1 {
      QuietAppend(left, tail);
      assert rest == [];
    } else {
      PlainRest(items, 1);
      PrefixedStream(rest, tail, left);
      assert rest[1..] == items[2..];
    }
  }

  /** Noise in front of a stream is noise of its first item. */
  lemma {:induction false} PrefixedStream(items: seq<Item>, tail: string, left: string)
    requires Plain(items) && items != [] && Quiet(left)
    ensures var items' := [items[0].(noise := left + items[0].noise)] + items[1..];
            Plain(items') && Stream(items', tail) == left + Stream(items, tail)
  {
    QuietAppend(left, items[0].noise);
    Renoised(items, tail, left + items[0].noise);
    StreamFirst(items, tail, items[0], items[1..]);
    Regroup(left, items[0].noise, items[0].Core() + Stream(items[1..], tail));
  }

  /** Stream offset of the first byte of item `i`, behind its noise. */
  function CoreAt(items: seq<Item>, i: nat): nat
    requires i < |items|
  {
    if i == 0 then |items[0].noise| else |items[0].Text()| + CoreAt(items[1..], i - 1)
  }

  /** Item `i` is lost exactly if its first byte is dropped; the others keep their order and
      their packets. */
  ghost predicate FateOf(items: seq<Item>, left: seq<Item>, k: nat, i: nat)
    requires i < |items|
  {
    var lost := |items| - |left|;
    && lost >= 0 && (CoreAt(items, i) < k <==> i < lost)
    && (i >= lost ==> left[i - lost].Packet() == items[i].Packet())
  }

  lemma {:induction false} FateWithin(items: seq<Item>, k: nat, i: nat)
    requires i < |items| && |items[0].noise| < k < |items[0].Text()|
    ensures FateOf(items, Surviving(items, k), k, i)
  {
    if i > 0 {
      var first := items[1].(noise := items[0].Text()[k..] + items[1].noise);
      assert Surviving(items, k) == [first] + items[2..];
      assert first.Packet() == items[1].Packet();
    }
  }

  lemma {:induction false} FateInFront(items: seq<Item>, k: nat, i: nat)
    requires i < |items| && k <= |items[0].noise|
    ensures FateOf(items, Surviving(items, k), k, i)
  {
    FirstRenoised(items, Surviving(items, k), items[0].noise[k..], i);
    CoreFrom(items, i);
    AllSurvive(items, Surviving(items, k), k, i);
  }

  lemma {:induction false} FirstRenoised(items: seq<Item>, left: seq<Item>, noise: string, i: nat)
    requires i < |items| && left == [items[0].(noise := noise)] + items[1..]
    ensures |left| == |items| && left[i].Packet() == items[i].Packet()
  {
    if i > 0 { assert left[i] == items[i]; }
  }

  lemma {:induction false} AllSurvive(items: seq<Item>, left: seq<Item>, k: nat, i: nat)
    requires i < |items| == |left| && left[i].Packet() == items[i].Packet() && CoreAt(items, i) >= k
    ensures FateOf(items, left, k, i)
  {
  }

  lemma {:induction false} CoreFrom(items: seq<Item>, i: nat)
    requires i < |items|
    ensures CoreAt(items, i) >= |items[0].noise|
  {
  }

  lemma {:induction false} FateBehind(items: seq<Item>, k: nat, i: nat, left: seq<Item>)
    requires 0 < i < |items| && k >= |items[0].Text()| && FateOf(items[1..], left, k - |items[0].Text()|, i - 1)
    ensures FateOf(items, left, k, i)
  {
  }

  lemma {:induction false} SurvivingExactly(items: seq<Item>, k: nat, i: nat)
    requires i < |items|
    ensures FateOf(items, Surviving(items, k), k, i)
    decreases |items|
  {
    var size := |items[0].Text()|;
    if k <= |items[0].noise| {
      FateInFront(items, k, i);
    } else if k < size {
      FateWithin(items, k, i);
    } else if i == 0 {
      SurvivingShrinks(items[1..], k - size);
    } else {
      SurvivingExactly(items[1..], k - size, i - 1);
      FateBehind(items, k, i, Surviving(items[1..], k - size));
    }
  }

  lemma {:induction false} SurvivingShrinks(items: seq<Item>, k: nat)
    ensures |Surviving(items, k)| <= |items|
    decreases |items|
  {
    if items != [] && k >= |items[0].Text()| {
      SurvivingShrinks(items[1..], k - |items[0].Text()|);
    }
  }

  /** The bytes that a packet and the wait behind its reply drop. */
  function Dropped(taken: nat, ack: bool): nat {
    if ack then taken + 1 else taken
  }

  /** The session in terms of the client's items, whatever packets read of the stream while
      they run: what a packet or the wait behind its reply drops is gone, and the session goes
      on with the items that survive. */
  ghost function Played<T>(exec: (T, string, nat) -> Effect<T>, cuts: set<nat>, acks: nat -> bool, items: seq<Item>,
                           pos: nat, n: nat, t: T, handled: seq<string>, sent: seq<Sent>): Outcome<T>
    decreases |items|
  {
    if items == [] || (items[0].Frame? && pos + items[0].Middle() in cuts) then Outcome(handled, t, sent, false)
    else
      var p, s, after := items[0].Packet().payload, Acknowledged(sent, items[0].Packet().acked),
        pos + |items[0].Text()|;
      if p == "D" then Outcome(handled + [p], t, s + [Framed("OK")], false)
      else if p == "k" then Outcome(handled + [p], t, s, false)
      else
        match exec(t, p, after)
        case Crash => Outcome(handled + [p], t, s, true)
        case Reply(t', text, taken) =>
          var k := Dropped(taken, acks(n));
          SurvivingShrinks(items[1..], k);
          Played(exec, cuts, acks, Surviving(items[1..], k), after + k, n + 1, t', handled + [p], s + [Framed(text)])
  }

  /** One item that is answered. */
  lemma {:induction false} PlayedReply<T>(exec: (T, string, nat) -> Effect<T>, cuts: set<nat>, acks: nat -> bool,
                                          items: seq<Item>, pos: nat, n: nat, t: T, handled: seq<string>,
                                          sent: seq<Sent>, r: Received, e: Effect<T>, k: nat)
    requires items != [] && !(items[0].Frame? && pos + items[0].Middle() in cuts)
    requires r == Received(items[0].Packet().payload, pos + |items[0].Text()|, items[0].Packet().acked)
             && r.payload !in ["D", "k"]
    requires e == exec(t, r.payload, r.next) && e.Reply? && k == Dropped(e.taken, acks(n))
    ensures Played(exec, cuts, acks, items, pos, n, t, handled, sent)
            == Played(exec, cuts, acks, Surviving(items[1..], k), r.next + k, n + 1, e.t, handled + [r.payload],
                      Acknowledged(sent, r.acked) + [Framed(e.text)])
  {
  }

  /** Dropping the whole stream loses every item. */
  lemma {:induction false} NoneSurvives(items: seq<Item>, tail: string, k: nat)
    requires k >= |Stream(items, tail)|
    ensures Surviving(items, k) == []
    decreases |items|
  {
    if items != [] {
      StreamFirst(items, tail, items[0], items[1..]);
      NoneSurvives(items[1..], tail, k - |items[0].Text()|);
    }
  }

  /** The items of a plain stream, from offset `pos` on. */
  ghost predicate Here(input: string, pos: nat, items: seq<Item>, tail: string) {
    pos <= |input| && Plain(items) && Quiet(tail) && input[pos..] == Stream(items, tail)
  }

  /** What the server receives there. */
  ghost predicate First(wire: Wire, pos: nat, cuts: set<nat>, items: seq<Item>) {
    var r := wire(pos);
    if items == [] || (items[0].Frame? && pos + items[0].Middle() in cuts) then r.payload == "" && !r.acked
    else r == Received(items[0].Packet().payload, pos + |items[0].Text()|, items[0].Packet().acked) && r.payload != ""
  }

  lemma {:induction false} RepliesAgree<T>(wire: Wire, end: nat, cuts: set<nat>, exec: (T, string, nat) -> Effect<T>,
                                           acks: nat -> bool, pos: nat, n: nat, items: seq<Item>, t: T,
                                           handled: seq<string>, sent: seq<Sent>, r: Received, e: Effect<T>, k: nat,
                                           next: nat, o: Outcome<T>)
    requires Steady(wire, end) && pos <= end && r == wire(pos)
    requires First(wire, pos, cuts, items) && r.payload !in ["", "D", "k"]
    requires e == exec(t, r.payload, r.next) && e.Reply? && k == Dropped(e.taken, acks(n))
             && next == Next(end, r.next, e.taken, acks(n))
    requires o == Session(wire, end, exec, acks, next, n + 1, e.t, handled + [r.payload],
                          Acknowledged(sent, r.acked) + [Framed(e.text)])
    requires o == Played(exec, cuts, acks, Surviving(items[1..], k), r.next + k, n + 1, e.t, handled + [r.payload],
                         Acknowledged(sent, r.acked) + [Framed(e.text)])
    ensures o == Session(wire, end, exec, acks, pos, n, t, handled, sent)
    ensures o == Played(exec, cuts, acks, items, pos, n, t, handled, sent)
  {
    SessionReply(wire, end, exec, acks, pos, n, t, handled, sent, r, e, next);
    PlayedReply(exec, cuts, acks, items, pos, n, t, handled, sent, r, e, k);
  }

  /** An item that ends the session. */
  lemma {:induction false} EndsAgree<T>(wire: Wire, end: nat, cuts: set<nat>, exec: (T, string, nat) -> Effect<T>,
                                        acks: nat -> bool, pos: nat, n: nat, items: seq<Item>, t: T,
                                        handled: seq<string>, sent: seq<Sent>)
    requires Steady(wire, end) && pos <= end && First(wire, pos, cuts, items)
    requires wire(pos).payload in ["", "D", "k"] || exec(t, wire(pos).payload, wire(pos).next).Crash?
    ensures Session(wire, end, exec, acks, pos, n, t, handled, sent)
            == Played(exec, cuts, acks, items, pos, n, t, handled, sent)
  {
  }

  lemma {:induction false} ReceivesFirst(wire: Wire, input: string, cuts: set<nat>, pos: nat, items: seq<Item>,
                                         tail: string)
    requires Reads(wire, input, cuts) && Here(input, pos, items, tail)
    ensures First(wire, pos, cuts, items)
    ensures wire(pos).payload != "" ==> items != [] && Here(input, wire(pos).next, items[1..], tail)
  {
    if items == [] {
      WireEnd(wire, input, cuts, pos);
    } else {
      WireItem(wire, input, cuts, pos, items[0], Stream(items[1..], tail));
      PlainRest(items, 1);
    }
  }

  /** Every session over a plain stream: which packets arrive when the client does not wait for
      replies, does not acknowledge them, or interrupts a run. */
  lemma {:induction false} SessionPlays<T>(wire: Wire, input: string, cuts: set<nat>,
                                           exec: (T, string, nat) -> Effect<T>, acks: nat -> bool, pos: nat, n: nat,
                                           items: seq<Item>, tail: string, t: T, handled: seq<string>, sent: seq<Sent>)
    requires Reads(wire, input, cuts) && Steady(wire, |input|) && Here(input, pos, items, tail)
    ensures Session(wire, |input|, exec, acks, pos, n, t, handled, sent)
            == Played(exec, cuts, acks, items, pos, n, t, handled, sent)
    decreases |items|, 1
  {
    ReceivesFirst(wire, input, cuts, pos, items, tail);
    var r := wire(pos);
    if r.payload in ["", "D", "k"] || exec(t, r.payload, r.next).Crash? {
      EndsAgree(wire, |input|, cuts, exec, acks, pos, n, items, t, handled, sent);
    } else {
      ReplyPlays(wire, input, cuts, exec, acks, pos, n, items, tail, t, handled, sent, r, exec(t, r.payload, r.next));
    }
  }

  lemma {:induction false} ReplyPlays<T>(wire: Wire, input: string, cuts: set<nat>, exec: (T, string, nat) -> Effect<T>,
                                         acks: nat -> bool, pos: nat, n: nat, items: seq<Item>, tail: string, t: T,
                                         handled: seq<string>, sent: seq<Sent>, r: Received, e: Effect<T>)
    requires Reads(wire, input, cuts) && Steady(wire, |input|) && pos <= |input|
    requires r == wire(pos) && First(wire, pos, cuts, items) && r.payload !in ["", "D", "k"]
    requires items != [] && Here(input, r.next, items[1..], tail) && e == exec(t, r.payload, r.next) && e.Reply?
    ensures Session(wire, |input|, exec, acks, pos, n, t, handled, sent)
            == Played(exec, cuts, acks, items, pos, n, t, handled, sent)
    decreases |items|, 0
  {
    var k, next := Dropped(e.taken, acks(n)), Next(|input|, r.next, e.taken, acks(n));
    var o := RestPlays(wire, input, cuts, exec, acks, r.next, k, next, n + 1, items[1..], tail, e.t,
      handled + [r.payload],
                       Acknowledged(sent, r.acked) + [Framed(e.text)]);
    RepliesAgree(wire, |input|, cuts, exec, acks, pos, n, items, t, handled, sent, r, e, k, next, o);
  }

  lemma {:induction false} RestPlays<T>(wire: Wire, input: string, cuts: set<nat>, exec: (T, string, nat) -> Effect<T>,
                                        acks: nat -> bool, after: nat, k: nat, next: nat, n: nat, items: seq<Item>,
                                        tail: string, t: T, handled: seq<string>, sent: seq<Sent>)
    returns (o: Outcome<T>)
    requires Reads(wire, input, cuts) && Steady(wire, |input|) && Here(input, after, items, tail)
    requires next == if after + k <= |input| then after + k else |input|
    ensures o == Session(wire, |input|, exec, acks, next, n, t, handled, sent)
    ensures o == Played(exec, cuts, acks, Surviving(items, k), after + k, n, t, handled, sent)
    decreases |items|, 3
  {
    SessionGoesOn(wire, input, cuts, exec, acks, after, k, next, n, items, tail, t, handled, sent);
    o := Session(wire, |input|, exec, acks, next, n, t, handled, sent);
  }

  /** The rest of the session, `k` bytes further on or at the end of the stream. */
  lemma {:induction false} SessionGoesOn<T>(wire: Wire, input: string, cuts: set<nat>,
                                            exec: (T, string, nat) -> Effect<T>, acks: nat -> bool, after: nat, k: nat,
                                            next: nat, n: nat, items: seq<Item>, tail: string, t: T,
                                            handled: seq<string>, sent: seq<Sent>)
    requires Reads(wire, input, cuts) && Steady(wire, |input|) && Here(input, after, items, tail)
    requires next == if after + k <= |input| then after + k else |input|
    ensures Session(wire, |input|, exec, acks, next, n, t, handled, sent)
            == Played(exec, cuts, acks, Surviving(items, k), after + k, n, t, handled, sent)
    decreases |items|, 2
  {
    HereSurviving(input, after, k, items, tail);
    if next == after + k {
      SessionPlays(wire, input, cuts, exec, acks, next, n, Surviving(items, k), TailLeft(items, tail, k), t, handled,
        sent);
    } else {
      WireEnd(wire, input, cuts, next);
    }
  }

  lemma {:induction false} HereSurviving(input: string, pos: nat, k: nat, items: seq<Item>, tail: string)
    requires Here(input, pos, items, tail)
    ensures |Surviving(items, k)| <= |items|
    ensures if pos + k <= |input| then Here(input, pos + k, Surviving(items, k), TailLeft(items, tail, k))
            else Surviving(items, k) == []
  {
    SurvivingShrinks(items, k);
    if pos + k <= |input| {
      StreamSurviving(items, tail, k);
      assert input[pos + k..] == input[pos..][k..];
    } else {
      NoneSurvives(items, tail, k);
    }
  }

  /** The whole session of such a client. */
  lemma {:induction false} PlainSession<T>(exec: (T, string, nat) -> Effect<T>, cuts: set<nat>, acks: nat -> bool,
                                           items: seq<Item>, tail: string, t: T)
    requires Plain(items) && Quiet(tail)
    ensures var input := Stream(items, tail);
            Session(WireOf(input, cuts), |input|, exec, acks, 0, 0, t, [], [])
              == Played(exec, cuts, acks, items, 0, 0, t, [], [])
  {
    var input := Stream(items, tail);
    assert input[0..] == input;
    SessionPlays(WireOf(input, cuts), input, cuts, exec, acks, 0, 0, items, tail, t, [], []);
  }

  /** A packet that drops bytes: the session goes on with exactly the items whose first byte
      is still there. */
  lemma {:induction false} DropThenRest<T>(exec: (T, string, nat) -> Effect<T>, cuts: set<nat>, acks: nat -> bool,
                                           items: seq<Item>, pos: nat, n: nat, t: T, handled: seq<string>,
                                           sent: seq<Sent>, r: Received, e: Effect<T>, k: nat, i: nat)
    requires items != [] && !(items[0].Frame? && pos + items[0].Middle() in cuts) && i < |items| - 1
    requires r == Received(items[0].Packet().payload, pos + |items[0].Text()|, items[0].Packet().acked)
             && r.payload !in ["D", "k"]
    requires e == exec(t, r.payload, r.next) && e.Reply? && k == Dropped(e.taken, acks(n))
    ensures Played(exec, cuts, acks, items, pos, n, t, handled, sent)
            == Played(exec, cuts, acks, Surviving(items[1..], k), r.next + k, n + 1, e.t, handled + [r.payload],
                      Acknowledged(sent, r.acked) + [Framed(e.text)])
    ensures FateOf(items[1..], Surviving(items[1..], k), k, i)
  {
    PlayedReply(exec, cuts, acks, items, pos, n, t, handled, sent, r, e, k);
    SurvivingExactly(items[1..], k, i);
  }
}
