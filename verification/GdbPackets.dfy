/** Packet framing of the GDB remote protocol: `recvPacket`, `sendPacket`, and what a
    client's byte stream looks like to them. */
module GdbPackets {
  import opened Machine
  import opened Modular
  import opened HexText

  const INTERRUPT: char := 3 as char

  /** What one receive returns, where it leaves the stream, and whether it acknowledged. */
  datatype Received = Received(payload: string, next: nat, acked: bool)

  /** The first `c` at or behind `pos`, or the end of the stream. */
  function FindFrom(input: string, c: char, pos: nat): (i: nat)
    requires pos <= |input|
    ensures pos <= i <= |input| && (i < |input| ==> input[i] == c)
    ensures forall j :: pos <= j < i ==> input[j] != c
    decreases |input| - pos
  {
    if pos == |input| || input[pos] == c then pos else FindFrom(input, c, pos + 1)
  }

  /** The first packet start or interrupt at or behind `pos`, or the end of the stream. */
  function SkipNoise(input: string, pos: nat): (i: nat)
    requires pos <= |input|
    ensures pos <= i <= |input| && (i < |input| ==> input[i] == '$' || input[i] == INTERRUPT)
    ensures forall j :: pos <= j < i ==> input[j] != '$' && input[j] != INTERRUPT
    decreases |input| - pos
  {
    if pos == |input| || input[pos] == '$' || input[pos] == INTERRUPT then pos else SkipNoise(input, pos + 1)
  }

  /** How many bytes a two-byte read at `at` returns. `cuts` holds the stream offsets where a
      read stops short, because the next bytes have not arrived yet. */
  function ReadTwo(input: string, cuts: set<nat>, at: nat): (k: nat)
    requires at <= |input|
    ensures k <= 2 && at + k <= |input|
  {
    if at + 2 <= |input| && at + 1 !in cuts then 2 else if at < |input| then 1 else 0
  }

  /** `recvPacket` at stream offset `pos`; an empty payload ends the session. */
  function Receive(input: string, cuts: set<nat>, pos: nat): (r: Received)
    requires pos <= |input|
    ensures pos <= r.next <= |input| && (r.payload != "" ==> pos < r.next)
  {
    var i := SkipNoise(input, pos);
    if i == |input| then Received("", i, false)
    else if input[i] == INTERRUPT then Received([INTERRUPT], i + 1, false)
    else
      var j := FindFrom(input, '#', i + 1);
      if j == |input| then Received("", j, false)
      else
        var k := ReadTwo(input, cuts, j + 1);
        if k < 2 then Received("", j + 1 + k, false) else Received(input[i + 1..j], j + 3, true)
  }

  /** The receive once the packet start is found. */
  lemma {:induction false} ReceiveBehind(input: string, cuts: set<nat>, pos: nat, i: nat, j: nat)
    requires pos <= |input| && i == SkipNoise(input, pos) < |input| && input[i] == '$' && j
             == FindFrom(input, '#', i + 1)
    ensures Receive(input, cuts, pos) ==
            if j == |input| then Received("", j, false)
            else
              var k := ReadTwo(input, cuts, j + 1);
              if k < 2 then Received("", j + 1 + k, false) else Received(input[i + 1..j], j + 3, true)
  {
  }

  /** A receive that finds none. */
  lemma {:induction false} ReceiveNone(input: string, cuts: set<nat>, pos: nat, i: nat)
    requires pos <= |input| && i == SkipNoise(input, pos) && (i < |input| ==> input[i] == INTERRUPT)
    ensures Receive(input, cuts, pos) ==
            if i == |input| then Received("", i, false) else Received([INTERRUPT], i + 1, false)
  {
  }

  /** Sum of the bytes of a payload, modulo 256. */
  function Checksum(data: string): (v: Byte) {
    if data == "" then 0 else (Checksum(data[..|data| - 1]) as int + data[|data| - 1] as int) % 256
  }

  function Packet(data: string): string {
    "$" + data + "#" + Byte2(Checksum(data))
  }

  /** The sum of the bytes. */
  function ByteSum(data: string): nat {
    if data == "" then 0 else ByteSum(data[..|data| - 1]) + data[|data| - 1] as int
  }

  lemma {:induction false} ByteSumSnoc(a: string, c: char)
    ensures ByteSum(a + [c]) == ByteSum(a) + c as int
  {
    assert (a + [c])[..|a|] == a;
  }

  lemma {:induction false} ByteSumAppend(a: string, b: string)
    ensures ByteSum(a + b) == ByteSum(a) + ByteSum(b)
    decreases |b|
  {
    if b == "" {
      assert a + b == a;
    } else {
      ByteSumAppend(a, b[..|b| - 1]);
      assert a + b == a + b[..|b| - 1] + [b[|b| - 1]];
      ByteSumSnoc(a + b[..|b| - 1], b[|b| - 1]);
    }
  }

  lemma {:induction false} ChecksumIsSum(data: string)
    ensures Checksum(data) == ByteSum(data) % 256
  {
    if data != "" {
      ChecksumIsSum(data[..|data| - 1]);
      ModSum(ByteSum(data[..|data| - 1]), data[|data| - 1] as int, 256);
    }
  }

  /** The checksum of one byte is that byte, and checksums add up modulo 256. */
  lemma {:induction false} ChecksumAdds(c: char, a: string, b: string)
    ensures Checksum([c]) == c as int % 256
    ensures Checksum(a + b) == (Checksum(a) as int + Checksum(b) as int) % 256
  {
    assert [c][..0] == "";
    ChecksumIsSum(a);
    ChecksumIsSum(b);
    ChecksumIsSum(a + b);
    ByteSumAppend(a, b);
    ModSum(ByteSum(a), ByteSum(b), 256);
    ModSum(ByteSum(b), Checksum(a), 256);
  }

  /** A frame: the payload between its marks, and two hex digits that spell its byte sum
      modulo 256. */
  lemma {:induction false} FrameSpellsSum(data: string)
    ensures var p, n := Packet(data), |data|;
            && |p| == n + 4 && p[0] == '$' && p[1..n + 1] == data && p[n + 1] == '#'
            && AllHex(p[n + 2..]) && Value(p[n + 2..]) == ByteSum(data) % 256
  {
    var p, cs := Packet(data), Byte2(Checksum(data));
    ChecksumIsSum(data);
    ValueOfByte2(Checksum(data));
    assert p == "$" + data + "#" + cs && p[|data| + 2..] == cs;
  }

  /** One thing the server writes: an acknowledgement or a framed reply. */
  datatype Sent = Ack | Framed(data: string)

  function SentText(w: Sent): string {
    match w
    case Ack => "+"
    case Framed(data) => Packet(data)
  }

  /** The bytes of everything written, in order. */
  function Rendered(log: seq<Sent>): string {
    if log == [] then "" else Rendered(log[..|log| - 1]) + SentText(log[|log| - 1])
  }

  lemma {:induction false} RenderedSnoc(log: seq<Sent>, w: Sent)
    ensures Rendered(log + [w]) == Rendered(log) + SentText(w)
  {
    assert (log + [w])[..|log|] == log;
  }

  /** A client connection: what the client sends, how far it is read, and what it was sent. */
  class Connection {
    const input: string
    const cuts: set<nat>
    var pos: nat
    var output: string
    ghost var log: seq<Sent>

    constructor (input: string, cuts: set<nat>)
      ensures Valid() && this.input == input && this.cuts == cuts && pos == 0 && log == []
    {
      this.input, this.cuts := input, cuts;
      pos, output, log := 0, "", [];
    }

    ghost predicate Valid()
      reads this
    {
      pos <= |input| && output == Rendered(log)
    }

    /** The first loop of `recvPacket`: reads up to a packet start or an interrupt. */
    method ReadToStart() returns (c: char)
      requires pos <= |input|
      modifies this`pos
      ensures pos <= |input|
      ensures var i := SkipNoise(input, old(pos));
              if i == |input| then pos == i && c == '\0' else pos == i + 1 && c == input[i]
    {
      ghost var start := pos;
      while true
        invariant start <= pos <= |input| && SkipNoise(input, pos) == SkipNoise(input, start)
        decreases |input| - pos
      {
        if pos == |input| { return '\0'; }
        c := input[pos];
        pos := pos + 1;
        if c == INTERRUPT || c == '$' { return c; }
      }
    }

    /** The second loop: collects the payload up to `#`. */
    method ReadBody() returns (buf: string, ended: bool)
      requires pos <= |input|
      modifies this`pos
      ensures pos <= |input|
      ensures var j := FindFrom(input, '#', old(pos));
              && ended == (j == |input|)
              && (!ended ==> buf == input[old(pos)..j] && pos == j + 1)
              && (ended ==> pos == j)
    {
      buf := "";
      ghost var body := pos;
      while true
        invariant body <= pos <= |input| && buf == input[body..pos]
        invariant FindFrom(input, '#', pos) == FindFrom(input, '#', body)
        decreases |input| - pos
      {
        if pos == |input| { return buf, true; }
        var c := input[pos];
        pos := pos + 1;
        if c == '#' { return buf, false; }
        buf := buf + [c];
      }
    }

    /** `acked` tells whether a `+` was sent. */
    method RecvPacket() returns (buf: string, acked: bool)
      requires Valid()
      modifies this
      ensures Valid()
      ensures Received(buf, pos, acked) == Receive(input, cuts, old(pos))
      ensures log == if acked then old(log) + [Ack] else old(log)
    {
      ghost var start := pos;
      var c := ReadToStart();
      if c != '$' {
        ReceiveNone(input, cuts, start, SkipNoise(input, start));
        return if c == INTERRUPT then [INTERRUPT] else "", false;
      }
      ReceiveBehind(input, cuts, start, pos - 1, FindFrom(input, '#', pos));
      var ended;
      buf, ended := ReadBody();
      if ended { return "", false; }
      var n := ReadTwo(input, cuts, pos);
      pos := pos + n;
      if n != 2 { return "", false; }
      RenderedSnoc(log, Ack);
      output, log := output + "+", log + [Ack];
      acked := true;
    }

    /** Bytes read and dropped while a packet is executed, as far as there are any. */
    method Drop(n: nat)
      requires Valid()
      modifies this`pos
      ensures Valid() && pos == if old(pos) + n <= |input| then old(pos) + n else |input|
    {
      pos := if pos + n <= |input| then pos + n else |input|;
    }

    /** `ackSeen`: something became readable within the timeout; one byte of it is consumed. */
    method SendPacket(data: string, ackSeen: bool)
      requires Valid()
      modifies this
      ensures Valid()
      ensures log == old(log) + [Framed(data)]
      ensures pos == if ackSeen && old(pos) < |input| then old(pos) + 1 else old(pos)
    {
      var cksum: Byte := 0;
      for i := 0 to |data|
        invariant cksum == Checksum(data[..i])
      {
        assert data[..i + 1][..i] == data[..i];
        cksum := (cksum as int + data[i] as int) % 256;
      }
      assert data[..|data|] == data;
      RenderedSnoc(log, Framed(data));
      output, log := output + ("$" + data + "#" + Byte2(cksum)), log + [Framed(data)];
      if ackSeen && pos < |input| { pos := pos + 1; }
    }
  }
}
