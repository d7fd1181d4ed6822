/** The test bridge: memory is loaded and read back through the serial monitor's text protocol. */
module TestBridge {
  import opened Modular
  import opened Machine
  import opened Options
  import opened HexText
  import opened Text
  import opened LineSplitter
  import opened SerialMonitor
  import opened MonitorText

  // ---- Parsing a response ----

  /** `std::stoi(word, nullptr, 16)` narrowed to a byte; words it throws on are skipped. */
  function WordByte(word: string): seq<Byte> {
    match Stoi(word)
    case Some(v) => [v % 256]
    case None => []
  }

  function ParseWords(words: seq<string>): seq<Byte> {
    if words == [] then [] else ParseWords(words[..|words| - 1]) + WordByte(words[|words| - 1])
  }

  /** `response.find("OK") != npos` */
  predicate HasOk(s: string) {
    exists i :: 0 <= i < |s| - 1 && IsOkAt(s, i)
  }

  predicate IsOkAt(s: string, i: nat)
    requires i + 1 < |s|
  {
    s[i] == 'O' && s[i + 1] == 'K'
  }

  lemma {:induction false} WordByteOfDigits(d: string, v: Byte)
    requires d != "" && AllHex(d) && Value(d) == v
    ensures WordByte(d) == [v]
  {
    ReadDigits(d);
  }

  lemma {:induction false} WordByteOfHex(v: Byte)
    ensures WordByte(UByte2(v)) == [v] && WordByte([Upper(v / 16)]) == [v / 16]
  {
    ValueOfByte2(v);
    WordByteOfDigits(UByte2(v), v);
    ValueOfDigit(v / 16);
    WordByteOfDigits([Upper(v / 16)], v / 16);
  }

  lemma {:induction false} ParseSnoc(ws: seq<string>, w: string)
    ensures ParseWords(ws + [w]) == ParseWords(ws) + WordByte(w)
  {
    assert (ws + [w])[..|ws|] == ws;
  }

  lemma {:induction false} ParseHexWords(bytes: seq<Byte>)
    ensures ParseWords(HexWords(bytes)) == bytes
  {
    if bytes != [] {
      var init, v := bytes[..|bytes| - 1], bytes[|bytes| - 1];
      ParseHexWords(init);
      WordByteOfHex(v);
      HexWordsSnoc(init, v);
      ParseSnoc(HexWords(init), UByte2(v));
      assert bytes == init + [v];
    }
  }

  lemma {:induction false} ParseTold(bytes: seq<Byte>, h: nat)
    requires h <= 3 * |bytes|
    ensures ParseWords(ToldWords(bytes, h)) == Told(bytes, h)
  {
    var front := bytes[..(h + 1) / 3];
    ParseHexWords(front);
    if h % 3 == 1 {
      WordByteOfHex(bytes[h / 3]);
      ParseSnoc(HexWords(front), [Upper(bytes[h / 3] / 16)]);
    } else {
      assert HexWords(front) + [] == HexWords(front) && front + [] == front;
    }
  }

  lemma {:induction false} WholeResponse(bytes: seq<Byte>)
    ensures ParseWords(Words(RawText(bytes) + "\n")) == bytes
  {
    WordsOfRaw(bytes);
    WordsAppend(RawText(bytes), "\n");
    ParseHexWords(bytes);
    assert "\n"[1..] == "" && HexWords(bytes) + [] == HexWords(bytes);
  }

  /** What the bridge makes of the first `r` characters of a response to X. */
  lemma {:induction false} CutResponse(bytes: seq<Byte>, r: nat)
    requires r < |RawText(bytes) + "\n"| && bytes != []
    ensures r < 3 * |bytes|
    ensures ParseWords(Words((RawText(bytes) + "\n")[..r])) == Told(bytes, r)
  {
    HexColumnIsRaw(bytes);
    HexColumnSize(bytes);
    CutColumnWords(bytes, r);
    ParseTold(bytes, r);
    assert (RawText(bytes) + "\n")[..r] == HexColumn(bytes)[..r];
  }

  // ---- Commands as the bridge prints them ----

  function TwoArgs(c: char, a: nat, b: nat): string {
    [c] + " " + Number(a) + " " + Number(b)
  }

  lemma {:induction false} ExtractTwo(a: nat, b: nat)
    ensures var args := " " + Number(a) + " " + Number(b);
            if a < WORD32 then ExtractHex(args) == Some((a, " " + Number(b)))
                               && ExtractHex(" " + Number(b)) == if b < WORD32 then Some((b, "")) else None
            else ExtractHex(args) == None
  {
    ValueOfNumber(a);
    ValueOfNumber(b);
    ExtractDigits(Number(a), " " + Number(b));
    ExtractDigits(Number(b), "");
    assert " " + Number(a) + " " + Number(b) == " " + Number(a) + (" " + Number(b));
    assert " " + Number(b) + "" == " " + Number(b);
  }

  lemma {:induction false} ArgsOf(c: char, a: nat, b: nat)
    ensures TwoArgs(c, a, b)[0] == c && TwoArgs(c, a, b)[1..] == " " + Number(a) + " " + Number(b)
  {
    assert TwoArgs(c, a, b) == [c] + (" " + Number(a) + " " + Number(b));
  }

  lemma {:induction false} NoBlanks(s: string)
    requires s != "" && !Blank(s[0])
    ensures SkipBlanks(s) == s
  {
  }

  lemma {:induction false} ExecuteStore(width: nat, other: Handler, m: Monitor, cmd: string)
    requires cmd != "" && cmd[0] == 'S'
    ensures Execute(width, other, m, cmd) == Store(m, cmd[1..])
  {
    NoBlanks(cmd);
  }

  lemma {:induction false} StoreIs(m: Monitor, args: string, addr: Word32, rest: string, v: Byte)
    requires ExtractHex(args) == Some((addr, rest)) && ExtractHex(rest) == Some((v, ""))
    ensures Store(m, args) == (m.(mem := Poke(m.mem, addr, v)), "OK")
  {
    ModSmall(v, 256);
  }

  lemma {:induction false} ExecuteS(width: nat, other: Handler, m: Monitor, cmd: string, addr: Word32, rest: string,
                                    v: Byte)
    requires cmd != "" && cmd[0] == 'S' && ExtractHex(cmd[1..]) == Some((addr, rest))
             && ExtractHex(rest) == Some((v, ""))
    ensures Execute(width, other, m, cmd) == (m.(mem := Poke(m.mem, addr, v)), "OK")
  {
    ExecuteStore(width, other, m, cmd);
    StoreIs(m, cmd[1..], addr, rest, v);
  }

  lemma {:induction false} ExecuteBadS(width: nat, other: Handler, m: Monitor, cmd: string)
    requires cmd != "" && cmd[0] == 'S' && ExtractHex(cmd[1..]) == None
    ensures Execute(width, other, m, cmd) == (m, "ERROR: S <addr> <value>")
  {
    ExecuteStore(width, other, m, cmd);
  }

  lemma {:induction false} ExecuteFetch(width: nat, other: Handler, m: Monitor, cmd: string)
    requires cmd != "" && cmd[0] == 'X'
    ensures Execute(width, other, m, cmd) == Fetch(m, cmd[1..])
  {
    NoBlanks(cmd);
  }

  lemma {:induction false} ExecuteX(width: nat, other: Handler, m: Monitor, cmd: string, addr: Word32, rest: string,
                                    n: Word32)
    requires cmd != "" && cmd[0] == 'X' && ExtractHex(cmd[1..]) == Some((addr, rest))
             && ExtractHex(rest) == Some((n, ""))
    ensures Execute(width, other, m, cmd) == (m, RawText(PeekRange(m.mem, addr, n)))
  {
    ExecuteFetch(width, other, m, cmd);
  }

  /** The S command of the bridge writes one byte, as long as the printed address fits 32 bits. */
  lemma {:induction false} ExecuteSet(width: nat, other: Handler, m: Monitor, addr: nat, v: Byte, cmd: string)
    requires cmd == TwoArgs('S', addr, v)
    ensures Execute(width, other, m, cmd) ==
            if addr < WORD32 then (m.(mem := Poke(m.mem, addr, v)), "OK") else (m, "ERROR: S <addr> <value>")
  {
    ArgsOf('S', addr, v);
    ExtractTwo(addr, v);
    if addr < WORD32 {
      ExecuteS(width, other, m, cmd, addr, " " + Number(v), v);
    } else {
      ExecuteBadS(width, other, m, cmd);
    }
  }

  lemma {:induction false} ExecuteRaw(width: nat, other: Handler, m: Monitor, addr: Word32, n: Word32, cmd: string)
    requires cmd == TwoArgs('X', addr, n)
    ensures Execute(width, other, m, cmd) == (m, RawText(PeekRange(m.mem, addr, n)))
  {
    ArgsOf('X', addr, n);
    ExtractTwo(addr, n);
    ExecuteX(width, other, m, cmd, addr, " " + Number(n), n);
  }

  /** What the monitor answers to the bridge's commands. */
  ghost predicate Answers(serve: Handler) {
    AnswersSet(serve) && AnswersFetch(serve)
  }

  ghost predicate AnswersSet(serve: Handler) {
    forall m, addr: nat, v: Byte ::
      serve(m, TwoArgs('S', addr, v)) ==
      if addr < WORD32 then (m.(mem := Poke(m.mem, addr, v)), "OK") else (m, "ERROR: S <addr> <value>")
  }

  ghost predicate AnswersFetch(serve: Handler) {
    forall m, addr: Word32, n: Word32 ::
      serve(m, TwoArgs('X', addr, n)) == (m, RawText(PeekRange(m.mem, addr, n)))
  }

  lemma {:induction false} MonitorSets(width: nat, other: Handler, serve: Handler)
    requires forall m, cmd :: serve(m, cmd) == Execute(width, other, m, cmd)
    ensures AnswersSet(serve)
  {
    forall m, addr: nat, v: Byte
      ensures serve(m, TwoArgs('S', addr, v)) ==
              if addr < WORD32 then (m.(mem := Poke(m.mem, addr, v)), "OK") else (m, "ERROR: S <addr> <value>")
    {
      ExecuteSet(width, other, m, addr, v, TwoArgs('S', addr, v));
    }
  }

  lemma {:induction false} MonitorFetches(width: nat, other: Handler, serve: Handler)
    requires forall m, cmd :: serve(m, cmd) == Execute(width, other, m, cmd)
    ensures AnswersFetch(serve)
  {
    forall m, addr: Word32, n: Word32
      ensures serve(m, TwoArgs('X', addr, n)) == (m, RawText(PeekRange(m.mem, addr, n)))
    {
      ExecuteRaw(width, other, m, addr, n, TwoArgs('X', addr, n));
    }
  }

  lemma {:induction false} MonitorAnswers(width: nat, other: Handler)
    ensures Answers((m, cmd) => Execute(width, other, m, cmd))
  {
    MonitorSets(width, other, (m, cmd) => Execute(width, other, m, cmd));
    MonitorFetches(width, other, (m, cmd) => Execute(width, other, m, cmd));
  }

  lemma {:induction false} CommandIsPrintable(c: char, a: nat, b: nat)
    requires Printable(c)
    ensures forall i :: 0 <= i < |TwoArgs(c, a, b)| ==> Printable(TwoArgs(c, a, b)[i])
  {
    ValueOfNumber(a);
    ValueOfNumber(b);
    DigitsArePrintable(Number(a));
    DigitsArePrintable(Number(b));
    var s := TwoArgs(c, a, b);
    assert s == [c, ' '] + Number(a) + [' '] + Number(b);
  }

  // ---- What a connection does ----

  /** Bytes one `recv` of the bridge can return. */
  const BUFFER := 4095

  /** `sendCommand`: the monitor runs the command, and one `recv` returns some of what it has
      sent; `arrived` is how much of it has arrived by then. */
  function Sent(serve: Handler, l: Link, cmd: string, arrived: nat): (Link, string) {
    var (m, out) := serve(l.remote, cmd);
    var stream := l.unread + (out + "\n");
    var k := Piece(stream, arrived, BUFFER);
    (Link(m, stream[k..]), stream[..k])
  }

  /** One S command: whether the bridge sees it accepted. */
  type Setter = (Link, nat, Byte, nat) -> (Link, bool)

  function SetOf(serve: Handler, arrived: nat -> nat): Setter {
    (l: Link, addr: nat, v: Byte, k: nat) =>
      var (l', response) := Sent(serve, l, TwoArgs('S', addr, v), arrived(k));
      (l', HasOk(response))
  }

  /** One X command and the bytes of what arrived of its response. */
  type Fetcher = (Link, Word32, Word32, nat) -> (Link, seq<Byte>)

  function FetchOf(serve: Handler, arrived: nat -> nat): Fetcher {
    (l: Link, addr: Word32, n: Word32, k: nat) =>
      var (l', response) := Sent(serve, l, TwoArgs('X', addr, n), arrived(k));
      (l', ParseWords(Words(response)))
  }

  /** `loadMemory` from byte `i` on. */
  function Loaded(set1: Setter, l: Link, addr: Word32, data: seq<Byte>, i: nat): (bool, Link)
    requires i <= |data|
    decreases |data| - i
  {
    if i == |data| then (true, l)
    else
      var (l', ok) := set1(l, addr + i, data[i], i);
      if ok then Loaded(set1, l', addr, data, i + 1) else (false, l')
  }

  const CHUNK_SIZE: Word32 := 64

  function ChunkAt(size: Word32, offset: nat): Word32
    requires offset < size
  {
    if size - offset < CHUNK_SIZE then size - offset else CHUNK_SIZE
  }

  /** `readMemory` from `offset` on, behind what is in `result`. */
  function Fetched(fetch: Fetcher, l: Link, addr: Word32, size: Word32, offset: nat, result: seq<Byte>)
    : (seq<Byte>, Link)
    decreases size - offset
  {
    if offset >= size then (result, l)
    else
      var (l', bytes) := fetch(l, Wrap(addr + offset), ChunkAt(size, offset), offset);
      Fetched(fetch, l', addr, size, offset + CHUNK_SIZE, result + bytes)
  }

  lemma {:induction false} FetchedStep(fetch: Fetcher, l: Link, addr: Word32, size: Word32, offset: nat,
                                       result: seq<Byte>, n: Word32, r: (Link, seq<Byte>))
    requires offset < size && n == ChunkAt(size, offset) && r == fetch(l, Wrap(addr + offset), n, offset)
    ensures Fetched(fetch, l, addr, size, offset, result)
            == Fetched(fetch, r.0, addr, size, offset + CHUNK_SIZE, result + r.1)
  {
  }

  lemma {:induction false} NextFits(size: Word32, offset: Word32, next: Word32)
    requires offset < size <= WORD32 - CHUNK_SIZE && next == Wrap(offset + CHUNK_SIZE)
    ensures next == offset + CHUNK_SIZE && size - next < size - offset
  {
  }

  class Bridge {
    /** What the monitor at the other end does with a command. */
    const serve: Handler
    var connected: bool
    var serialOutput: string
    /** The monitor at the other end of the connection. */
    var remote: Monitor
    /** What it has sent and the bridge has not read. */
    var unread: string

    constructor (serve: Handler, remote: Monitor)
      ensures this.serve == serve && this.remote == remote
      ensures connected && serialOutput == "" && unread == ""
    {
      this.serve, this.remote := serve, remote;
      connected, serialOutput, unread := true, "", "";
    }

    function State(): Link
      reads this
    {
      Link(remote, unread)
    }

    /** Sends a command line, lets the monitor's session run on it, and receives once. */
    method SendCommand(cmd: string, arrived: nat) returns (response: string)
      requires cmd != "" && forall i :: 0 <= i < |cmd| ==> Printable(cmd[i])
      modifies this`serialOutput, this`remote, this`unread
      ensures (State(), response) == Sent(serve, old(State()), cmd, arrived)
      ensures serialOutput == old(serialOutput) + response
    {
      var sent: seq<string>;
      OneLine(serve, cmd, remote);
      remote, sent := SerialHandleClient(serve, [cmd + "\n"], remote);
      unread := unread + sent[0];
      var k := Piece(unread, arrived, BUFFER);
      response, unread := unread[..k], unread[k..];
      serialOutput := serialOutput + response;
    }

    method SetByte(addr: nat, v: Byte, arrived: nat -> nat, k: nat) returns (ok: bool)
      modifies this`serialOutput, this`remote, this`unread
      ensures (State(), ok) == SetOf(serve, arrived)(old(State()), addr, v, k)
    {
      CommandIsPrintable('S', addr, v);
      var response := SendCommand(TwoArgs('S', addr, v), arrived(k));
      ok := HasOk(response);
    }

    /** One S command per byte; stops at the first response without OK. */
    method LoadMemory(addr: Word32, data: seq<Byte>, arrived: nat -> nat) returns (ok: bool)
      modifies this`serialOutput, this`remote, this`unread
      ensures !connected ==> !ok && State() == old(State())
      ensures connected ==> (ok, State()) == Loaded(SetOf(serve, arrived), old(State()), addr, data, 0)
    {
      if !connected { return false; }
      ghost var set1 := SetOf(serve, arrived);
      ghost var o := Loaded(set1, State(), addr, data, 0);
      for i := 0 to |data|
        invariant o == Loaded(set1, State(), addr, data, i)
      {
        var accepted := SetByte(addr + i, data[i], arrived, i);
        if !accepted { return false; }
      }
      return true;
    }

    method FetchChunk(addr: Word32, n: Word32, arrived: nat -> nat, k: nat) returns (bytes: seq<Byte>)
      modifies this`serialOutput, this`remote, this`unread
      ensures (State(), bytes) == FetchOf(serve, arrived)(old(State()), addr, n, k)
    {
      CommandIsPrintable('X', addr, n);
      var response := SendCommand(TwoArgs('X', addr, n), arrived(k));
      bytes := ParseWords(Words(response));
    }

    /** One round of `readMemory`. */
    method ReadNext(addr: Word32, size: Word32, offset: Word32, before: seq<Byte>, arrived: nat -> nat)
      returns (result: seq<Byte>, next: Word32)
      requires offset < size <= WORD32 - CHUNK_SIZE
      modifies this`serialOutput, this`remote, this`unread
      ensures offset < next
      ensures Fetched(FetchOf(serve, arrived), State(), addr, size, next, result)
              == Fetched(FetchOf(serve, arrived), old(State()), addr, size, offset, before)
    {
      ghost var l := State();
      var readSize := if size - offset < CHUNK_SIZE then size - offset else CHUNK_SIZE;
      var bytes := FetchChunk(Wrap(addr + offset), readSize, arrived, offset);
      result := before + bytes;
      next := Wrap(offset + CHUNK_SIZE);
      NextFits(size, offset, next);
      FetchedStep(FetchOf(serve, arrived), l, addr, size, offset, before, readSize, (State(), bytes));
    }

    /** X commands of at most 64 bytes each. */
    method ReadMemory(addr: Word32, size: Word32, arrived: nat -> nat) returns (result: seq<Byte>)
      requires size <= WORD32 - CHUNK_SIZE
      modifies this`serialOutput, this`remote, this`unread
      ensures !connected ==> result == [] && State() == old(State())
      ensures connected ==> (result, State()) == Fetched(FetchOf(serve, arrived), old(State()), addr, size, 0, [])
    {
      result := [];
      if !connected { return; }
      ghost var fetch := FetchOf(serve, arrived);
      ghost var o := Fetched(fetch, State(), addr, size, 0, []);
      var offset: Word32 := 0;
      while offset < size
        invariant o == Fetched(fetch, State(), addr, size, offset, result)
        decreases size - offset
      {
        result, offset := ReadNext(addr, size, offset, result, arrived);
      }
    }
  }

  /** In chunk round `k` the wrapping offset has reached the size. */
  predicate ReachesSize(size: Word32, k: nat) {
    Wrap(CHUNK_SIZE * k) >= size
  }

  /** The chunk loop ends exactly for sizes up to 2^32 - 64: the offset wraps before it can
      reach a larger one. */
  lemma {:induction false} ReadEndsExactly(size: Word32)
    ensures (exists k :: ReachesSize(size, k)) <==> size <= WORD32 - CHUNK_SIZE
  {
    if size <= WORD32 - CHUNK_SIZE {
      assert ReachesSize(size, WORD32 / CHUNK_SIZE - 1);
    }
  }

  // ---- One command ----

  /** The first OK, or the length of the text. */
  function FirstOk(s: string): (i: nat)
    ensures i <= |s| && (i < |s| ==> i + 1 < |s| && IsOkAt(s, i))
    ensures forall j :: 0 <= j < i && j + 1 < |s| ==> !IsOkAt(s, j)
  {
    if |s| < 2 then |s|
    else if IsOkAt(s, 0) then 0
    else
      var i := FirstOk(s[1..]);
      assert forall j :: 0 < j < i + 1 && j + 1 < |s| ==> IsOkAt(s, j) == IsOkAt(s[1..], j - 1);
      i + 1
  }

  /** A received part shows an OK exactly if it reaches the first one. */
  lemma {:induction false} OkShows(s: string, k: nat)
    requires k <= |s|
    ensures HasOk(s[..k]) <==> FirstOk(s) + 2 <= k
  {
    var i := FirstOk(s);
    if i + 2 <= k { assert IsOkAt(s[..k], i); }
    if HasOk(s[..k]) {
      var j :| 0 <= j < k - 1 && IsOkAt(s[..k], j);
      assert IsOkAt(s, j);
    }
  }

  const ACCEPTED := "OK" + "\n"

  const REJECTED := "ERROR: S <addr> <value>" + "\n"

  lemma {:induction false} NoOkIn(s: string)
    ensures !HasOk(s) <==> FirstOk(s) == |s|
  {
    OkShows(s, |s|);
    assert s[..|s|] == s;
  }

  lemma {:induction false} OkBehind(u: string)
    requires !HasOk(u)
    ensures FirstOk(u + ACCEPTED) == |u|
  {
    var s := u + ACCEPTED;
    assert s[|u|] == 'O' && s[|u| + 1] == 'K' && IsOkAt(s, |u|);
    forall j | 0 <= j < |u|
      ensures !IsOkAt(s, j)
    {
      if j + 1 < |u| { assert !IsOkAt(u, j); } else { assert s[j + 1] == 'O'; }
    }
  }

  lemma {:induction false} NoOkBehind(u: string)
    requires !HasOk(u)
    ensures !HasOk(u + REJECTED)
  {
    var s, e := u + REJECTED, REJECTED;
    RejectedHasNoK();
    forall j | 0 <= j < |s| - 1
      ensures !IsOkAt(s, j)
    {
      if j + 1 < |u| {
        assert !IsOkAt(u, j);
      } else {
        assert s[j + 1] == e[j + 1 - |u|] && s[j + 1] in e;
      }
    }
  }

  lemma {:induction false} RejectedHasNoK()
    ensures 'K' !in REJECTED
  {
  }

  lemma {:induction false} OkAnswer(serve: Handler, m: Monitor, addr: nat, v: Byte)
    requires Answers(serve)
    ensures serve(m, TwoArgs('S', addr, v)).1 + "\n" == if addr < WORD32 then ACCEPTED else REJECTED
    ensures serve(m, TwoArgs('S', addr, v)).0 == if addr < WORD32 then m.(mem := Poke(m.mem, addr, v)) else m
  {
  }

  /** One S command writes its byte, whatever is still unread; it is taken for accepted
      exactly if what is received reaches the first OK, which is its own if none is unread. */
  lemma {:induction false} SetExactly(serve: Handler, l: Link, addr: Word32, v: Byte, arrived: nat -> nat, k: nat)
    requires Answers(serve)
    ensures var (l', ok) := SetOf(serve, arrived)(l, addr, v, k);
            && l'.remote == l.remote.(mem := Poke(l.remote.mem, addr, v))
            && (ok <==> FirstOk(l.unread + ACCEPTED) + 2 <= PieceSize(|l.unread| + 3, arrived(k), BUFFER))
    ensures !HasOk(l.unread) ==> FirstOk(l.unread + ACCEPTED) == |l.unread|
  {
    OkAnswer(serve, l.remote, addr, v);
    var stream := l.unread + ACCEPTED;
    OkShows(stream, Piece(stream, arrived(k), BUFFER));
    if !HasOk(l.unread) { OkBehind(l.unread); }
  }

  /** The bytes told by a text: `iss >> word` and `std::stoi`. */
  function BytesOf(text: string): seq<Byte> {
    ParseWords(Words(text))
  }

  lemma {:induction false} BytesAssoc(a: seq<Byte>, b: seq<Byte>, c: seq<Byte>)
    ensures a + b + c == a + (b + c)
  {
  }

  lemma {:induction false} ParseOneMore(a: seq<string>, init: seq<string>, w: string, front: seq<string>,
                                        all: seq<string>, before: seq<Byte>, middle: seq<Byte>, last: seq<Byte>)
    requires front == a + init && all == a + (init + [w])
    requires ParseWords(front) == before + middle && last == middle + WordByte(w)
    ensures ParseWords(all) == before + last
  {
    ParseSnoc(front, w);
    BytesAssoc(before, middle, WordByte(w));
    assert all == front + [w];
  }

  lemma {:induction false} ParseAppend(a: seq<string>, b: seq<string>)
    ensures ParseWords(a + b) == ParseWords(a) + ParseWords(b)
    decreases |b|
  {
    if b == [] {
      assert a + b == a;
    } else {
      var init, w := b[..|b| - 1], b[|b| - 1];
      assert init + [w] == b;
      ParseAppend(a, init);
      ParseSnoc(init, w);
      ParseOneMore(a, init, w, a + init, a + b, ParseWords(a), ParseWords(init), ParseWords(b));
    }
  }

  /** No word runs from the first text into the second. */
  predicate Parted(a: string, b: string) {
    a == "" || b == "" || Blank(a[|a| - 1]) || Blank(b[0])
  }

  lemma {:induction false} PartedWords(a: string, b: string)
    requires Parted(a, b)
    ensures Words(a + b) == Words(a) + Words(b)
  {
    if a == "" {
      assert a + b == b && Words("") + Words(b) == Words(b);
    } else if b == "" {
      assert a + b == a && Words(a) + Words("") == Words(a);
    } else if Blank(b[0]) {
      WordsAppend(a, b);
    } else {
      WordsAfterBlank(a, b);
    }
  }

  lemma {:induction false} PartedBytes(a: string, b: string)
    requires Parted(a, b)
    ensures BytesOf(a + b) == BytesOf(a) + BytesOf(b)
  {
    PartedWords(a, b);
    ParseAppend(Words(a), Words(b));
  }

  lemma {:induction false} BlankBytes(u: string)
    requires AllBlank(u)
    ensures BytesOf(u) == []
  {
    WordsOfBlanks(u);
  }

  lemma {:induction false} RawSize(bytes: seq<Byte>)
    ensures |RawText(bytes)| == if bytes == [] then 0 else 3 * |bytes| - 1
  {
    if bytes != [] {
      HexColumnIsRaw(bytes);
      HexColumnSize(bytes);
    }
  }

  /** What `n` bytes of a response to X take, with the line feed. */
  function ReplySize(n: nat): nat {
    if n == 0 then 1 else 3 * n
  }

  /** How much of the response a client has that had `lag` blanks to read in front of it. */
  function CharsOf(lag: nat, n: nat, arrived: nat): (h: nat)
    ensures h <= 3 * n
  {
    var g := PieceSize(lag + ReplySize(n), arrived, BUFFER);
    if g <= lag || n == 0 then 0 else g - lag
  }

  lemma {:induction false} ToldAll(bytes: seq<Byte>)
    ensures Told(bytes, 3 * |bytes|) == bytes
  {
  }

  lemma {:induction false} BytesOfPart(bytes: seq<Byte>, text: string, h: nat)
    requires text == RawText(bytes) + "\n" && h <= ReplySize(|bytes|)
    ensures h <= |text| && BytesOf(text[..h]) == Told(bytes, if bytes == [] then 0 else h)
  {
    RawSize(bytes);
    if h == |text| {
      assert text[..h] == text;
      WholeResponse(bytes);
      ToldAll(bytes);
    } else if bytes == [] {
      assert text[..h] == "";
    } else {
      CutResponse(bytes, h);
    }
  }

  lemma {:induction false} BlanksInFront(u: string, text: string, g: nat)
    requires AllBlank(u) && g <= |u + text|
    ensures BytesOf((u + text)[..g]) == BytesOf(text[..if g <= |u| then 0 else g - |u|])
  {
    if g <= |u| {
      assert (u + text)[..g] == u[..g] && text[..0] == "";
      BlankBytes(u[..g]);
    } else {
      assert (u + text)[..g] == u + text[..g - |u|];
      PartedBytes(u, text[..g - |u|]);
      BlankBytes(u);
    }
  }

  lemma {:induction false} FetchIs(serve: Handler, l: Link, addr: Word32, n: Word32, arrived: nat -> nat, k: nat,
                                   stream: string)
    requires Answers(serve) && stream == l.unread + (RawText(PeekRange(l.remote.mem, addr, n)) + "\n")
    ensures var g := Piece(stream, arrived(k), BUFFER);
            FetchOf(serve, arrived)(l, addr, n, k) == (Link(l.remote, stream[g..]), BytesOf(stream[..g]))
  {
  }

  lemma {:induction false} ChunkTold(bytes: seq<Byte>, u: string, text: string, g: nat, h: nat)
    requires AllBlank(u) && text == RawText(bytes) + "\n" && g <= |u| + ReplySize(|bytes|)
    requires h == if g <= |u| || bytes == [] then 0 else g - |u|
    ensures g <= |u + text| && h <= 3 * |bytes| && BytesOf((u + text)[..g]) == Told(bytes, h)
  {
    RawSize(bytes);
    BlanksInFront(u, text, g);
    BytesOfPart(bytes, text, if g <= |u| then 0 else g - |u|);
  }

  /** One X command, with nothing but blanks unread in front of its response, reads its range
      right exactly if both digits of the last byte have arrived, or the first one of a zero. */
  lemma {:induction false} ReadChunkExactly(serve: Handler, m: Monitor, u: string, addr: Word32, n: Word32,
                                            arrived: nat -> nat, k: nat)
    requires Answers(serve) && AllBlank(u)
    ensures var bytes := PeekRange(m.mem, addr, n);
            FetchOf(serve, arrived)(Link(m, u), addr, n, k).1 == bytes
            <==> Reaches(bytes, CharsOf(|u|, n, arrived(k)), n)
  {
    var bytes := PeekRange(m.mem, addr, n);
    var text := RawText(bytes) + "\n";
    RawSize(bytes);
    FetchIs(serve, Link(m, u), addr, n, arrived, k, u + text);
    ChunkTold(bytes, u, text, Piece(u + text, arrived(k), BUFFER), CharsOf(|u|, n, arrived(k)));
    ToldExactly(bytes, CharsOf(|u|, n, arrived(k)), n);
    assert bytes[..n] == bytes;
  }

  /** If no more is received than was unread before, the bytes are those of the old text,
      whatever the memory holds. */
  lemma {:induction false} StaleChunk(serve: Handler, l: Link, addr: Word32, n: Word32, arrived: nat -> nat, k: nat)
    requires Answers(serve)
    ensures var g := PieceSize(|l.unread| + ReplySize(n), arrived(k), BUFFER);
            g <= |l.unread| ==> FetchOf(serve, arrived)(l, addr, n, k).1 == BytesOf(l.unread[..g])
  {
    var bytes := PeekRange(l.remote.mem, addr, n);
    var text := RawText(bytes) + "\n";
    var stream := l.unread + text;
    RawSize(bytes);
    FetchIs(serve, l, addr, n, arrived, k, stream);
    var g := Piece(stream, arrived(k), BUFFER);
    if g <= |l.unread| { assert stream[..g] == l.unread[..g]; }
  }

  // ---- Loading ----

  /** How much is unread in front of command `k`, if all commands so far were seen accepted. */
  function Lag(arrived: nat -> nat, u: nat, k: nat): nat {
    if k == 0 then u
    else
      var lag := Lag(arrived, u, k - 1);
      lag + 3 - PieceSize(lag + 3, arrived(k - 1), BUFFER)
  }

  /** Command `k` is seen accepted then: what is received reaches both letters. */
  predicate Seen(arrived: nat -> nat, u: nat, k: nat) {
    PieceSize(Lag(arrived, u, k) + 3, arrived(k), BUFFER) >= Lag(arrived, u, k) + 2
  }

  /** How many of the bytes are written by a load that has got to byte `i`. */
  function WrittenFrom(arrived: nat -> nat, u: nat, addr: Word32, n: nat, i: nat): (w: nat)
    requires i <= n
    ensures i <= w <= n
    decreases n - i
  {
    if i == n || addr + i >= WORD32 then i
    else if Seen(arrived, u, i) then WrittenFrom(arrived, u, addr, n, i + 1) else i + 1
  }

  /** What one S command does on a link with no OK unread. */
  ghost predicate Sets(set1: Setter, arrived: nat -> nat) {
    forall m: Monitor, t: string, addr: nat, v: Byte, k: nat | !HasOk(t) ::
      set1(Link(m, t), addr, v, k) == SetStep(m, t, addr, v, arrived(k))
  }

  function SetStep(m: Monitor, t: string, addr: nat, v: Byte, n: nat): (Link, bool) {
    var stream := t + if addr < WORD32 then ACCEPTED else REJECTED;
    var g := Piece(stream, n, BUFFER);
    (Link(if addr < WORD32 then m.(mem := Poke(m.mem, addr, v)) else m, stream[g..]), addr < WORD32 && g >= |t| + 2)
  }

  lemma {:induction false} SetIsStep(serve: Handler, arrived: nat -> nat, m: Monitor, t: string, addr: nat, v: Byte,
                                     k: nat)
    requires Answers(serve) && !HasOk(t)
    ensures SetOf(serve, arrived)(Link(m, t), addr, v, k) == SetStep(m, t, addr, v, arrived(k))
  {
    OkAnswer(serve, m, addr, v);
    var stream := t + if addr < WORD32 then ACCEPTED else REJECTED;
    OkShows(stream, Piece(stream, arrived(k), BUFFER));
    if addr < WORD32 {
      OkBehind(t);
    } else {
      NoOkBehind(t);
      NoOkIn(stream);
    }
  }

  /** What is left of an accepted response. */
  lemma {:induction false} RestOfOk(t: string, g: nat)
    requires |t| + 2 <= g <= |t| + 3
    ensures (t + ACCEPTED)[g..] == if g == |t| + 2 then "\n" else ""
    ensures !HasOk("\n") && !HasOk("") && AllBlank("\n") && AllBlank("")
  {
  }

  /** How a load ends that has got to byte `i`, with `t` unread. */
  ghost predicate LoadEnds(o: (bool, Link), m: Monitor, t: string, addr: Word32, data: seq<Byte>, arrived: nat -> nat,
                           u: nat, i: nat)
    requires i <= |data|
  {
    && (o.0 <==> addr + |data| <= WORD32 && AllSeen(arrived, u, i, |data|))
    && o.1.remote == m.(mem := PokeRange(m.mem, addr, data[..WrittenFrom(arrived, u, addr, |data|, i)]))
    && (o.0 ==> |o.1.unread| == Lag(arrived, u, |data|) && if i == |data| then o.1.unread == t
      else AllBlank(o.1.unread))
  }

  ghost predicate AllSeen(arrived: nat -> nat, u: nat, i: nat, n: nat) {
    forall k :: i <= k < n ==> Seen(arrived, u, k)
  }

  lemma {:induction false} AllSeenNext(arrived: nat -> nat, u: nat, i: nat, n: nat)
    requires i < n
    ensures AllSeen(arrived, u, i, n) <==> Seen(arrived, u, i) && AllSeen(arrived, u, i + 1, n)
  {
  }

  lemma {:induction false} LoadStops(m: Monitor, t: string, addr: Word32, data: seq<Byte>, arrived: nat -> nat, u: nat,
                                     i: nat, step: (Link, bool))
    requires i < |data| && addr + i <= WORD32 && |t| == Lag(arrived, u, i)
    requires step == SetStep(m.(mem := PokeRange(m.mem, addr, data[..i])), t, addr + i, data[i], arrived(i)) && !step.1
    ensures LoadEnds((false, step.0), m, t, addr, data, arrived, u, i)
  {
    AllSeenNext(arrived, u, i, |data|);
    PokeRangeSnoc(m.mem, addr, data, i);
  }

  lemma {:induction false} LoadGoesOn(o: (bool, Link), m: Monitor, t: string, addr: Word32, data: seq<Byte>,
                                      arrived: nat -> nat, u: nat, i: nat, t': string)
    requires i < |data| && addr + i < WORD32 && Seen(arrived, u, i) && AllBlank(t')
    requires LoadEnds(o, m, t', addr, data, arrived, u, i + 1)
    ensures LoadEnds(o, m, t, addr, data, arrived, u, i)
  {
    AllSeenNext(arrived, u, i, |data|);
  }

  lemma {:induction false} SetAccepted(m: Monitor, t: string, addr: Word32, v: Byte, n: nat, step: (Link, bool))
    requires step == SetStep(m, t, addr, v, n) && step.1
    ensures step.0.remote == m.(mem := Poke(m.mem, addr, v))
    ensures |step.0.unread| == |t| + 3 - PieceSize(|t| + 3, n, BUFFER) && AllBlank(step.0.unread)
            && !HasOk(step.0.unread)
    ensures PieceSize(|t| + 3, n, BUFFER) >= |t| + 2
  {
    RestOfOk(t, Piece(t + ACCEPTED, n, BUFFER));
  }

  lemma {:induction false} LoadFrom(set1: Setter, m: Monitor, m': Monitor, t: string, addr: Word32, data: seq<Byte>,
                                    arrived: nat -> nat, u: nat, i: nat)
    requires Sets(set1, arrived) && i <= |data| && addr + i <= WORD32 && |t| == Lag(arrived, u, i) && !HasOk(t)
    requires m' == m.(mem := PokeRange(m.mem, addr, data[..i]))
    ensures LoadEnds(Loaded(set1, Link(m', t), addr, data, i), m, t, addr, data, arrived, u, i)
    decreases |data| - i
  {
    if i < |data| {
      var step := SetStep(m', t, addr + i, data[i], arrived(i));
      assert set1(Link(m', t), addr + i, data[i], i) == step;
      if step.1 {
        SetAccepted(m', t, addr + i, data[i], arrived(i), step);
        PokeRangeSnoc(m.mem, addr, data, i);
        LoadFrom(set1, m, step.0.remote, step.0.unread, addr, data, arrived, u, i + 1);
        LoadGoesOn(Loaded(set1, step.0, addr, data, i + 1), m, t, addr, data, arrived, u, i, step.0.unread);
      } else {
        LoadStops(m, t, addr, data, arrived, u, i, step);
      }
    }
  }

  /** However the responses arrive: a load is reported accepted exactly if the last address
      fits 32 bits and each response is received up to its OK; and it has written the bytes up
      to the first one that was not. */
  lemma {:induction false} LoadWrites(serve: Handler, m: Monitor, u: string, addr: Word32, data: seq<Byte>,
                                      arrived: nat -> nat)
    requires Answers(serve) && !HasOk(u)
    ensures LoadEnds(Loaded(SetOf(serve, arrived), Link(m, u), addr, data, 0), m, u, addr, data, arrived, |u|, 0)
  {
    forall m: Monitor, t: string, addr: nat, v: Byte, k: nat | !HasOk(t)
      ensures SetOf(serve, arrived)(Link(m, t), addr, v, k) == SetStep(m, t, addr, v, arrived(k))
    {
      SetIsStep(serve, arrived, m, t, addr, v, k);
    }
    assert data[..0] == [] && m.(mem := PokeRange(m.mem, addr, [])) == m;
    LoadFrom(SetOf(serve, arrived), m, m, u, addr, data, arrived, |u|, 0);
  }

  lemma {:induction false} AllWritten(arrived: nat -> nat, u: nat, addr: Word32, n: nat, i: nat)
    requires i <= n && addr + n <= WORD32 && forall k :: i <= k < n ==> Seen(arrived, u, k)
    ensures WrittenFrom(arrived, u, addr, n, i) == n
    decreases n - i
  {
    if i < n { AllWritten(arrived, u, addr, n, i + 1); }
  }

  // ---- Reading ----

  /** What is unread behind an X command for `n` bytes. */
  function LeftAfter(left: nat, n: nat, arrived: nat): nat {
    left + 3 * n - PieceSize(left + 3 * n, arrived, BUFFER)
  }

  /** What is received ends between the two digits of one of the `asked` bytes. */
  predicate Splits(left: nat, asked: nat) {
    left % 3 == 2 && left < 3 * asked
  }

  /** With `left` blanks unread in front: no piece but the last ends between the digits of a
      byte, and the last one reaches the last digit. */
  predicate Unbroken(arrived: nat -> nat, left: nat, size: Word32, offset: nat)
    decreases size - offset
  {
    offset < size ==>
      var n := ChunkAt(size, offset);
      var left' := LeftAfter(left, n, arrived(offset));
      if offset + CHUNK_SIZE >= size then left' <= 1
      else !Splits(left', offset + n) && Unbroken(arrived, left', size, offset + CHUNK_SIZE)
  }

  /** What one X command does. */
  function FetchStep(m: Monitor, t: string, addr: Word32, n: Word32, arrived: nat): (Link, seq<Byte>) {
    var stream := t + (RawText(PeekRange(m.mem, addr, n)) + "\n");
    var g := Piece(stream, arrived, BUFFER);
    (Link(m, stream[g..]), BytesOf(stream[..g]))
  }

  ghost predicate Fetches(fetch: Fetcher, m: Monitor, arrived: nat -> nat) {
    forall t: string, addr: Word32, n: Word32, k: nat ::
      fetch(Link(m, t), addr, n, k) == FetchStep(m, t, addr, n, arrived(k))
  }

  lemma {:induction false} FetchesIt(serve: Handler, m: Monitor, arrived: nat -> nat)
    requires Answers(serve)
    ensures Fetches(FetchOf(serve, arrived), m, arrived)
  {
    forall t: string, addr: Word32, n: Word32, k: nat
      ensures FetchOf(serve, arrived)(Link(m, t), addr, n, k) == FetchStep(m, t, addr, n, arrived(k))
    {
      FetchIs(serve, Link(m, t), addr, n, arrived, k, t + (RawText(PeekRange(m.mem, addr, n)) + "\n"));
    }
  }

  /** Character `k` of three for each byte: two digits and a blank. */
  predicate ColumnChar(c: char, bytes: seq<Byte>, k: nat)
    requires k < 3 * |bytes|
  {
    if k % 3 == 2 then Blank(c) else c == Upper(if k % 3 == 0 then bytes[k / 3] / 16 else bytes[k / 3] % 16)
  }

  ghost predicate Column(col: string, bytes: seq<Byte>) {
    |col| == 3 * |bytes| && forall k :: 0 <= k < |col| ==> ColumnChar(col[k], bytes, k)
  }

  lemma {:induction false} ReplyIsColumn(bytes: seq<Byte>)
    requires bytes != []
    ensures Column(RawText(bytes) + "\n", bytes)
  {
    var col, hex := RawText(bytes) + "\n", HexColumn(bytes);
    RawSize(bytes);
    HexColumnIsRaw(bytes);
    HexColumnSize(bytes);
    forall k | 0 <= k < |col|
      ensures ColumnChar(col[k], bytes, k)
    {
      HexColumnAt(bytes, k / 3);
      if k < |col| - 1 { assert col[k] == hex[k]; }
    }
  }

  lemma {:induction false} ColumnAppend(a: string, before: seq<Byte>, b: string, after: seq<Byte>)
    requires Column(a, before) && Column(b, after)
    ensures Column(a + b, before + after)
  {
    var all, n := before + after, |before|;
    forall k | 0 <= k < |a + b|
      ensures ColumnChar((a + b)[k], all, k)
    {
      if k < 3 * n {
        assert ColumnChar(a[k], before, k) && all[k / 3] == before[k / 3];
      } else {
        var j := k - 3 * n;
        assert ColumnChar(b[j], after, j) && j % 3 == k % 3 && k / 3 == j / 3 + n && all[k / 3] == after[j / 3];
      }
    }
  }

  predicate BlankEnd(s: string) {
    s == "" || Blank(s[|s| - 1])
  }

  /** The text so far and what is unread: blanks, and the column of the bytes asked for. */
  ghost predicate Columns(past: string, t: string, u: string, col: string, bytes: seq<Byte>) {
    past + t == u + col && AllBlank(u) && Column(col, bytes)
  }

  /** No word runs over the place where a piece ended. */
  predicate Clear(past: string, t: string) {
    BlankEnd(past) || (t != "" && Blank(t[0]))
  }

  lemma {:induction false} CharOf(past: string, t: string, u: string, col: string, i: nat)
    requires past + t == u + col && i < |past + t|
    ensures (if i < |past| then past[i] else t[i - |past|]) == if i < |u| then u[i] else col[i - |u|]
  {
    assert (past + t)[i] == (u + col)[i];
  }

  lemma {:induction false} UnsplitIsClear(past: string, t: string, u: string, col: string, bytes: seq<Byte>)
    requires Columns(past, t, u, col, bytes) && !Splits(|t|, |bytes|)
    ensures Clear(past, t)
  {
    assert |past| + |t| == |u| + |col|;
    if past != "" {
      CharOf(past, t, u, col, |past| - 1);
      if |past| > |u| {
        var k := |past| - |u|;
        if k % 3 == 0 {
          assert ColumnChar(col[k - 1], bytes, k - 1);
        } else {
          CharOf(past, t, u, col, |past|);
          assert ColumnChar(col[k], bytes, k);
        }
      }
    }
  }

  lemma {:induction false} ClearParts(past: string, t: string, more: string, g: nat)
    requires Clear(past, t) && g <= |t + more|
    ensures Parted(past, (t + more)[..g])
  {
  }

  /** One more command: the columns grow by its response, and a piece is received. */
  lemma {:induction false} ColumnsNext(past: string, t: string, u: string, col: string, bytes: seq<Byte>, reply: string,
                                       chunk: seq<Byte>, g: nat)
    requires Columns(past, t, u, col, bytes) && chunk != [] && reply == RawText(chunk) + "\n" && g <= |t + reply|
    ensures Columns(past + (t + reply)[..g], (t + reply)[g..], u, col + reply, bytes + chunk)
  {
    ReplyIsColumn(chunk);
    ColumnAppend(col, bytes, reply, chunk);
    var s := t + reply;
    assert past + s[..g] + s[g..] == past + s && past + s == (past + t) + reply && (u + col) + reply
      == u + (col + reply);
  }

  lemma {:induction false} ReplyBytes(chunk: seq<Byte>, before: string)
    requires BlankEnd(before)
    ensures BytesOf(before + (RawText(chunk) + "\n")) == BytesOf(before) + chunk
    ensures BlankEnd(before + (RawText(chunk) + "\n"))
  {
    PartedBytes(before, RawText(chunk) + "\n");
    WholeResponse(chunk);
  }

  /** A read in progress: what is received and what is left unread, the blanks in front, the
      column of all responses, and the bytes told so far. */
  datatype Progress = Progress(past: string, left: string, lead: string, col: string, told: seq<Byte>)

  /** `bytes` are those asked for. */
  ghost predicate Received(bytes: seq<Byte>, g: Progress) {
    && Columns(g.past, g.left, g.lead, g.col, bytes)
    && BytesOf(g.lead + g.col) == bytes && BlankEnd(g.lead + g.col) && g.told == BytesOf(g.past)
  }

  /** The same, and the next piece starts a new word. */
  ghost predicate Ready(bytes: seq<Byte>, g: Progress) {
    Received(bytes, g) && Clear(g.past, g.left)
  }

  lemma {:induction false} ReadyAtFirst(u: string, g: Progress)
    requires AllBlank(u) && g == Progress("", u, u, "", [])
    ensures Ready([], g)
  {
    BlankBytes(u);
    assert "" + u == u + "" == u;
  }

  lemma {:induction false} ReadyUnsplit(bytes: seq<Byte>, g: Progress)
    requires Received(bytes, g) && !Splits(|g.left|, |bytes|)
    ensures Ready(bytes, g)
  {
    UnsplitIsClear(g.past, g.left, g.lead, g.col, bytes);
  }

  lemma {:induction false} TextAssoc(a: string, b: string, c: string)
    ensures a + (b + c) == a + b + c
  {
  }

  lemma {:induction false} AllNext(u: string, col: string, bytes: seq<Byte>, reply: string, chunk: seq<Byte>)
    requires BytesOf(u + col) == bytes && BlankEnd(u + col) && reply == RawText(chunk) + "\n"
    ensures BytesOf(u + (col + reply)) == bytes + chunk && BlankEnd(u + (col + reply))
  {
    ReplyBytes(chunk, u + col);
    TextAssoc(u, col, reply);
  }

  lemma {:induction false} PastNext(past: string, t: string, reply: string, g: nat)
    requires Clear(past, t) && g <= |t + reply|
    ensures BytesOf(past + (t + reply)[..g]) == BytesOf(past) + BytesOf((t + reply)[..g])
  {
    ClearParts(past, t, reply, g);
    PartedBytes(past, (t + reply)[..g]);
  }

  /** One more response, of which `piece` is received. */
  function Next(g: Progress, reply: string, piece: string, rest: string): Progress {
    Progress(g.past + piece, rest, g.lead, g.col + reply, g.told + BytesOf(piece))
  }

  lemma {:induction false} ReceivedNext(bytes: seq<Byte>, g: Progress, chunk: seq<Byte>, reply: string, piece: string,
                                        rest: string)
    requires Ready(bytes, g) && chunk != [] && reply == RawText(chunk) + "\n" && piece + rest == g.left + reply
    ensures Received(bytes + chunk, Next(g, reply, piece, rest))
  {
    assert (g.left + reply)[..|piece|] == piece && (g.left + reply)[|piece|..] == rest;
    ColumnsNext(g.past, g.left, g.lead, g.col, bytes, reply, chunk, |piece|);
    AllNext(g.lead, g.col, bytes, reply, chunk);
    PastNext(g.past, g.left, reply, |piece|);
  }

  lemma {:induction false} FetchSizes(m: Monitor, t: string, addr: Word32, n: Word32, arrived: nat, chunk: seq<Byte>,
                                      reply: string, piece: string, r: (Link, seq<Byte>))
    requires n > 0 && r == FetchStep(m, t, addr, n, arrived) && chunk == PeekRange(m.mem, addr, n) && reply
             == RawText(chunk) + "\n"
    requires piece == (t + reply)[..Piece(t + reply, arrived, BUFFER)]
    ensures r.0.remote == m && |r.0.unread| == LeftAfter(|t|, n, arrived) && piece != ""
    ensures piece + r.0.unread == t + reply && r.1 == BytesOf(piece)
  {
    RawSize(chunk);
  }

  /** One X command of a read: what it leaves, and `piece`, what it receives. */
  lemma {:induction false} FetchReceives(m: Monitor, addr: Word32, asked: nat, g: Progress, n: Word32, arrived: nat,
                                         r: (Link, seq<Byte>))
    returns (g': Progress, piece: string)
    requires Ready(PeekRange(m.mem, addr, asked), g) && n > 0 && BusSize(|m.mem|)
    requires r == FetchStep(m, g.left, Wrap(addr + asked), n, arrived)
    ensures r.0 == Link(m, g'.left) && g'.told == g.told + r.1 && |g'.left| == LeftAfter(|g.left|, n, arrived)
    ensures Received(PeekRange(m.mem, addr, asked + n), g')
    ensures piece != "" && g'.past == g.past + piece && r.1 == BytesOf(piece)
  {
    var chunk := PeekRange(m.mem, Wrap(addr + asked), n);
    var reply := RawText(chunk) + "\n";
    piece := (g.left + reply)[..Piece(g.left + reply, arrived, BUFFER)];
    FetchSizes(m, g.left, Wrap(addr + asked), n, arrived, chunk, reply, piece, r);
    RangeAppend(m.mem, addr, asked, n);
    ReceivedNext(PeekRange(m.mem, addr, asked), g, chunk, reply, piece, r.0.unread);
    g' := Next(g, reply, piece, r.0.unread);
  }

  /** What is told and what is left tell everything. */
  lemma {:induction false} AllTold(bytes: seq<Byte>, g: Progress)
    requires Received(bytes, g) && Clear(g.past, g.left)
    ensures bytes == g.told + BytesOf(g.left)
  {
    PartedBytes(g.past, g.left);
  }

  lemma {:induction false} LastBlank(bytes: seq<Byte>, g: Progress)
    requires Received(bytes, g) && |g.left| == 1
    ensures AllBlank(g.left)
  {
    var all := g.lead + g.col;
    CharOf(g.past, g.left, g.lead, g.col, |g.past|);
    assert |g.past| + 1 == |all| && all[|all| - 1] == g.left[0];
  }

  lemma {:induction false} LastLeft(bytes: seq<Byte>, g: Progress)
    requires Received(bytes, g) && |g.left| <= 1
    ensures g.told == bytes && AllBlank(g.left)
  {
    if g.left != "" {
      LastBlank(bytes, g);
      AllTold(bytes, g);
      BlankBytes(g.left);
    } else {
      assert g.past + g.left == g.past;
    }
  }

  /** How a read ends that is not broken. */
  ghost predicate ReadEnds(o: (seq<Byte>, Link), m: Monitor, bytes: seq<Byte>) {
    o.0 == bytes && o.1.remote == m && AllBlank(o.1.unread)
  }

  lemma {:induction false} UnbrokenNext(arrived: nat -> nat, left: nat, size: Word32, offset: nat, n: Word32,
                                        left': nat, next: nat)
    requires offset < size && n == ChunkAt(size, offset) && left' == LeftAfter(left, n, arrived(offset)) && next
             == offset + CHUNK_SIZE
    ensures Unbroken(arrived, left, size, offset) <==> UnbrokenBehind(arrived, left', size, next)
  {
  }

  /** The rest of a read is not broken, behind the command for the chunk in front of `next`. */
  predicate UnbrokenBehind(arrived: nat -> nat, left: nat, size: Word32, next: nat) {
    if next >= size then left <= 1 else !Splits(left, next) && Unbroken(arrived, left, size, next)
  }

  /** One step of a read: what it comes to, and the bytes asked for by then. */
  lemma {:induction false} ReadStep(fetch: Fetcher, m: Monitor, addr: Word32, size: Word32, offset: nat,
                                    bytes: seq<Byte>, g: Progress, arrived: nat -> nat, next: nat)
    returns (g': Progress, all: seq<Byte>, piece: string, told: seq<Byte>)
    requires Fetches(fetch, m, arrived) && BusSize(|m.mem|) && offset < size && next == offset + CHUNK_SIZE
    requires bytes == PeekRange(m.mem, addr, offset) && Ready(bytes, g)
    ensures Fetched(fetch, Link(m, g.left), addr, size, offset, g.told)
            == Fetched(fetch, Link(m, g'.left), addr, size, next, g'.told)
    ensures Unbroken(arrived, |g.left|, size, offset) <==> UnbrokenBehind(arrived, |g'.left|, size, next)
    ensures all == PeekRange(m.mem, addr, if next < size then next else size) && Received(all, g')
    ensures g'.past == g.past + piece && piece != "" && told == BytesOf(piece) && g'.told == g.told + told
  {
    var n := ChunkAt(size, offset);
    var r := FetchStep(m, g.left, Wrap(addr + offset), n, arrived(offset));
    assert fetch(Link(m, g.left), Wrap(addr + offset), n, offset) == r;
    g', piece := FetchReceives(m, addr, offset, g, n, arrived(offset), r);
    all, told := PeekRange(m.mem, addr, offset + n), r.1;
    FetchedStep(fetch, Link(m, g.left), addr, size, offset, g.told, n, r);
    UnbrokenNext(arrived, |g.left|, size, offset, n, |g'.left|, next);
  }

  lemma {:induction false} ReadFrom(fetch: Fetcher, m: Monitor, addr: Word32, size: Word32, offset: nat,
                                    bytes: seq<Byte>, g: Progress, arrived: nat -> nat)
    requires Fetches(fetch, m, arrived) && BusSize(|m.mem|) && offset < size
             && Unbroken(arrived, |g.left|, size, offset)
    requires bytes == PeekRange(m.mem, addr, offset) && Ready(bytes, g)
    ensures ReadEnds(Fetched(fetch, Link(m, g.left), addr, size, offset, g.told), m, PeekRange(m.mem, addr, size))
    decreases size - offset, 1
  {
    var next := offset + CHUNK_SIZE;
    var g', all, _, _ := ReadStep(fetch, m, addr, size, offset, bytes, g, arrived, next);
    ReadBehind(fetch, m, addr, size, next, all, g', arrived);
  }

  lemma {:induction false} ReadLast(fetch: Fetcher, l: Link, addr: Word32, size: Word32, next: nat, bytes: seq<Byte>,
                                    g: Progress)
    requires Received(bytes, g) && |g.left| <= 1 && next >= size && l.unread == g.left
    ensures ReadEnds(Fetched(fetch, l, addr, size, next, g.told), l.remote, bytes)
  {
    LastLeft(bytes, g);
  }

  lemma {:induction false} ReadBehind(fetch: Fetcher, m: Monitor, addr: Word32, size: Word32, next: nat,
                                      bytes: seq<Byte>, g: Progress, arrived: nat -> nat)
    requires Fetches(fetch, m, arrived) && BusSize(|m.mem|)
    requires bytes == PeekRange(m.mem, addr, if next < size then next else size) && Received(bytes, g)
    requires UnbrokenBehind(arrived, |g.left|, size, next)
    ensures ReadEnds(Fetched(fetch, Link(m, g.left), addr, size, next, g.told), m, PeekRange(m.mem, addr, size))
    decreases size - next, 2
  {
    if next >= size {
      ReadLast(fetch, Link(m, g.left), addr, size, next, bytes, g);
    } else {
      ReadyUnsplit(bytes, g);
      ReadFrom(fetch, m, addr, size, next, bytes, g, arrived);
    }
  }

  /** However the responses arrive, with nothing but blanks unread in front: a read returns the
      range, if no piece but the last ends between the digits of a byte, and the last one
      reaches the last digit. */
  lemma {:induction false} ReadUnbroken(serve: Handler, m: Monitor, u: string, addr: Word32, size: Word32,
                                        arrived: nat -> nat)
    requires Answers(serve) && BusSize(|m.mem|) && AllBlank(u) && Unbroken(arrived, |u|, size, 0)
    ensures ReadEnds(Fetched(FetchOf(serve, arrived), Link(m, u), addr, size, 0, []), m, PeekRange(m.mem, addr, size))
  {
    assert PeekRange(m.mem, addr, 0) == [];
    if size > 0 {
      FetchesIt(serve, m, arrived);
      ReadyAtFirst(u, Progress("", u, u, "", []));
      ReadFrom(FetchOf(serve, arrived), m, addr, size, 0, [], Progress("", u, u, "", []), arrived);
    }
  }

  // ---- A broken read ----

  /** A memory of which every byte is 0x11. */
  function Ones(n: nat): (mem: Memory)
    requires n > 0
    ensures |mem| == n && AllOnes(mem)
  {
    seq(n, _ => 0x11)
  }

  predicate AllOnes(bytes: seq<Byte>) {
    forall i :: 0 <= i < |bytes| ==> bytes[i] == 0x11
  }

  lemma {:induction false} OnesRead(mem: Memory, addr: int, len: nat)
    requires AllOnes(mem)
    ensures AllOnes(PeekRange(mem, addr, len))
  {
    forall i | 0 <= i < len
      ensures PeekRange(mem, addr, len)[i] == 0x11
    {
      assert PeekRange(mem, addr, len)[i] == Peek(mem, addr + i);
    }
  }

  lemma {:induction false} OneDigit()
    ensures BytesOf("1") == [1] && BytesOf("11" + "\n") == [0x11]
  {
    NibbleOfDigit(1);
    WordByteOfHex(0x11);
    assert [Upper(1)] == "1" && UByte2(0x11) == "11";
    WordsOfOne("1");
    assert ["1"][..0] == [] && ParseWords(["1"]) == [1];
    assert [0x11][..0] == [] && RawText([0x11]) == "11";
    WholeResponse([0x11]);
  }

  /** A piece that ends behind the first digit of 0x11 is read as ending in a 1. */
  lemma {:induction false} SplitTellsOne(bytes: seq<Byte>, past: string, piece: string, t: string, u: string,
                                         col: string)
    requires Columns(past + piece, t, u, col, bytes) && AllOnes(bytes) && piece != "" && Splits(|t|, |bytes|)
    ensures BytesOf(piece) != [] && BytesOf(piece)[|BytesOf(piece)| - 1] == 1
  {
    var all := past + piece;
    assert |all| + |t| == |u| + |col|;
    var k := |all| - |u| - 1;
    CharOf(all, t, u, col, |all| - 1);
    assert k % 3 == 0 && ColumnChar(col[k], bytes, k);
    NibbleOfDigit(1);
    var front := piece[..|piece| - 1];
    assert piece == front + "1" && all[|all| - 1] == piece[|piece| - 1];
    if front != "" {
      CharOf(all, t, u, col, |all| - 2);
      assert all[|all| - 2] == front[|front| - 1];
      if k > 0 { assert ColumnChar(col[k - 1], bytes, k - 1); }
    }
    PartedBytes(front, "1");
    OneDigit();
  }

  /** What a read has returned stays at the front of what it returns. */
  lemma {:induction false} FetchedExtends(fetch: Fetcher, l: Link, addr: Word32, size: Word32, offset: nat,
                                          result: seq<Byte>)
    ensures result <= Fetched(fetch, l, addr, size, offset, result).0
    decreases size - offset
  {
    if offset < size {
      var r := fetch(l, Wrap(addr + offset), ChunkAt(size, offset), offset);
      FetchedExtends(fetch, r.0, addr, size, offset + CHUNK_SIZE, result + r.1);
    }
  }

  lemma {:induction false} ColumnEnd(col: string, bytes: seq<Byte>)
    requires Column(col, bytes) && AllOnes(bytes) && bytes != []
    ensures var k := |col| - 3;
            && k >= 0 && col[k] == '1' && col[k + 1] == '1' && Blank(col[k + 2]) && (k > 0 ==> Blank(col[k - 1]))
  {
    var k := |col| - 3;
    assert ColumnChar(col[k], bytes, k) && ColumnChar(col[k + 1], bytes, k + 1) && ColumnChar(col[k + 2], bytes, k + 2);
    if k > 0 { assert ColumnChar(col[k - 1], bytes, k - 1); }
    NibbleOfDigit(1);
  }

  lemma {:induction false} LastBytes(last: string)
    requires |last| == 3 && last[0] == '1' && last[1] == '1' && Blank(last[2])
    ensures BytesOf(last) == [0x11]
  {
    var b := last[2..];
    assert last == "11" + b;
    PartedBytes("11", b);
    BlankBytes(b);
    PartedBytes("11", "\n");
    BlankBytes("\n");
    OneDigit();
  }

  /** The end of what is unread is the end of the column. */
  lemma {:induction false} UnreadEnd(past: string, t: string, u: string, col: string)
    requires past + t == u + col && AllBlank(u) && |t| >= 3 && |col| >= 3 && (|col| > 3 ==> Blank(col[|col| - 4]))
    ensures t[|t| - 3..] == col[|col| - 3..] && BlankEnd(t[..|t| - 3])
  {
    var n := |u + col|;
    assert n == |past| + |t|;
    CharOf(past, t, u, col, n - 1);
    CharOf(past, t, u, col, n - 2);
    CharOf(past, t, u, col, n - 3);
    if |t| > 3 { CharOf(past, t, u, col, n - 4); }
  }

  lemma {:induction false} LastTold(front: string, last: string, t: string)
    requires BytesOf(last) == [0x11] && t == front + last && Parted(front, last)
    ensures BytesOf(t) != []
  {
    PartedBytes(front, last);
  }

  lemma {:induction false} LastIsTold(col: string, bytes: seq<Byte>, last: string)
    requires Column(col, bytes) && AllOnes(bytes) && bytes != [] && |col| >= 3 && last == col[|col| - 3..]
    ensures BytesOf(last) == [0x11]
  {
    ColumnEnd(col, bytes);
    LastBytes(last);
  }

  lemma {:induction false} EndsWithLast(past: string, t: string, u: string, col: string, front: string, last: string)
    requires past + t == u + col && AllBlank(u) && |t| >= 3 && |col| >= 3 && (|col| > 3 ==> Blank(col[|col| - 4]))
    requires front == t[..|t| - 3] && last == col[|col| - 3..]
    ensures t == front + last && Parted(front, last)
  {
    UnreadEnd(past, t, u, col);
    assert t == t[..|t| - 3] + t[|t| - 3..];
  }

  lemma {:induction false} EndIsTold(past: string, t: string, u: string, col: string, bytes: seq<Byte>)
    requires Columns(past, t, u, col, bytes) && AllOnes(bytes) && bytes != [] && |t| >= 3
    ensures BytesOf(t) != []
  {
    var front, last := t[..|t| - 3], col[|col| - 3..];
    LastIsTold(col, bytes, last);
    ColumnEnd(col, bytes);
    EndsWithLast(past, t, u, col, front, last);
    LastTold(front, last, t);
  }

  lemma {:induction false} UnsplitPair(left: nat, asked: nat)
    requires left >= 2 && asked > 0 && !Splits(left, asked)
    ensures left >= 3
  {
  }

  /** With the last digit unread, the last byte is still to come. */
  lemma {:induction false} LastMissing(bytes: seq<Byte>, g: Progress)
    requires Ready(bytes, g) && AllOnes(bytes) && bytes != [] && |g.left| >= 2 && !Splits(|g.left|, |bytes|)
    ensures |g.told| < |bytes|
  {
    AllTold(bytes, g);
    UnsplitPair(|g.left|, |bytes|);
    EndIsTold(g.past, g.left, g.lead, g.col, bytes);
  }

  lemma {:induction false} OneIsWrong(before: seq<Byte>, told: seq<Byte>, all: seq<Byte>, ones: seq<Byte>)
    requires told != [] && told[|told| - 1] == 1 && before + told <= all && AllOnes(ones)
    ensures all != ones
  {
    assert all[|before + told| - 1] == (before + told)[|before + told| - 1] == 1;
  }

  /** A piece that splits a byte spoils the whole read. */
  lemma {:induction false} SplitSpoils(fetch: Fetcher, l: Link, addr: Word32, size: Word32, next: nat, bytes: seq<Byte>,
                                       g: Progress, past: string, piece: string, before: seq<Byte>, told: seq<Byte>,
                                       ones: seq<Byte>)
    requires Received(bytes, g) && AllOnes(bytes) && AllOnes(ones) && Splits(|g.left|, |bytes|)
    requires g.past == past + piece && piece != "" && told == BytesOf(piece)
    ensures Fetched(fetch, l, addr, size, next, before + told).0 != ones
  {
    SplitTellsOne(bytes, past, piece, g.left, g.lead, g.col);
    FetchedExtends(fetch, l, addr, size, next, before + told);
    OneIsWrong(before, told, Fetched(fetch, l, addr, size, next, before + told).0, ones);
  }

  /** A broken read of such a memory does not return its bytes. */
  lemma {:induction false} BrokenFrom(fetch: Fetcher, m: Monitor, addr: Word32, size: Word32, offset: nat,
                                      bytes: seq<Byte>, g: Progress, arrived: nat -> nat, ones: seq<Byte>)
    requires Fetches(fetch, m, arrived) && BusSize(|m.mem|) && AllOnes(m.mem) && ones == PeekRange(m.mem, addr, size)
    requires offset < size && !Unbroken(arrived, |g.left|, size, offset)
    requires bytes == PeekRange(m.mem, addr, offset) && Ready(bytes, g)
    ensures Fetched(fetch, Link(m, g.left), addr, size, offset, g.told).0 != ones
    decreases size - offset, 1
  {
    var next := offset + CHUNK_SIZE;
    var g', all, piece, told := ReadStep(fetch, m, addr, size, offset, bytes, g, arrived, next);
    BrokenNext(fetch, m, addr, size, next, all, g', g.past, piece, g.told, told, arrived, ones);
  }

  lemma {:induction false} BrokenLast(fetch: Fetcher, l: Link, addr: Word32, size: Word32, next: nat, bytes: seq<Byte>,
                                      g: Progress)
    requires Ready(bytes, g) && AllOnes(bytes) && bytes != [] && |g.left| >= 2 && !Splits(|g.left|, |bytes|)
             && next >= size
    ensures Fetched(fetch, l, addr, size, next, g.told).0 != bytes
  {
    LastMissing(bytes, g);
  }

  lemma {:induction false} BrokenNext(fetch: Fetcher, m: Monitor, addr: Word32, size: Word32, next: nat,
                                      bytes: seq<Byte>, g: Progress, past: string, piece: string, before: seq<Byte>,
                                      told: seq<Byte>, arrived: nat -> nat, ones: seq<Byte>)
    requires Fetches(fetch, m, arrived) && BusSize(|m.mem|) && AllOnes(m.mem) && ones
             == PeekRange(m.mem, addr, size) && next > 0
    requires bytes == PeekRange(m.mem, addr, if next < size then next else size) && Received(bytes, g)
    requires size > 0 && !UnbrokenBehind(arrived, |g.left|, size, next)
    requires g.past == past + piece && piece != "" && told == BytesOf(piece) && g.told == before + told
    ensures Fetched(fetch, Link(m, g.left), addr, size, next, g.told).0 != ones
    decreases size - next, 3
  {
    OnesRead(m.mem, addr, if next < size then next else size);
    OnesRead(m.mem, addr, size);
    if Splits(|g.left|, |bytes|) {
      SplitSpoils(fetch, Link(m, g.left), addr, size, next, bytes, g, past, piece, before, told, ones);
    } else {
      BrokenBehind(fetch, m, addr, size, next, bytes, g, arrived, ones);
    }
  }

  lemma {:induction false} BrokenBehind(fetch: Fetcher, m: Monitor, addr: Word32, size: Word32, next: nat,
                                        bytes: seq<Byte>, g: Progress, arrived: nat -> nat, ones: seq<Byte>)
    requires Fetches(fetch, m, arrived) && BusSize(|m.mem|) && AllOnes(m.mem) && ones
             == PeekRange(m.mem, addr, size) && next > 0
    requires bytes == PeekRange(m.mem, addr, if next < size then next else size) && Received(bytes, g) && AllOnes(bytes)
    requires size > 0 && !UnbrokenBehind(arrived, |g.left|, size, next) && !Splits(|g.left|, |bytes|)
    ensures Fetched(fetch, Link(m, g.left), addr, size, next, g.told).0 != ones
    decreases size - next, 2
  {
    ReadyUnsplit(bytes, g);
    if next >= size {
      BrokenLast(fetch, Link(m, g.left), addr, size, next, bytes, g);
    } else {
      BrokenFrom(fetch, m, addr, size, next, bytes, g, arrived, ones);
    }
  }

  /** The read returns the range. */
  ghost predicate ReadsRange(serve: Handler, m: Monitor, u: string, addr: Word32, size: Word32, arrived: nat -> nat) {
    Fetched(FetchOf(serve, arrived), Link(m, u), addr, size, 0, []).0 == PeekRange(m.mem, addr, size)
  }

  /** With nothing but blanks unread in front, a read returns the range whatever the memory
      holds, exactly if no piece but the last ends between the digits of a byte, and the last
      one reaches the last digit. */
  lemma {:induction false} ReadReads(serve: Handler, n: nat, last: Word32, u: string, addr: Word32, size: Word32,
                                     arrived: nat -> nat)
    requires Answers(serve) && BusSize(n) && AllBlank(u)
    ensures (forall mem: Memory :: |mem| == n ==> ReadsRange(serve, Monitor(mem, last), u, addr, size, arrived))
            <==> Unbroken(arrived, |u|, size, 0)
  {
    if Unbroken(arrived, |u|, size, 0) {
      forall mem: Memory | |mem| == n
        ensures ReadsRange(serve, Monitor(mem, last), u, addr, size, arrived)
      {
        ReadUnbroken(serve, Monitor(mem, last), u, addr, size, arrived);
      }
    } else {
      BrokenRead(serve, Monitor(Ones(n), last), u, addr, size, arrived);
    }
  }

  lemma {:induction false} BrokenRead(serve: Handler, m: Monitor, u: string, addr: Word32, size: Word32,
                                      arrived: nat -> nat)
    requires Answers(serve) && BusSize(|m.mem|) && AllOnes(m.mem) && AllBlank(u) && !Unbroken(arrived, |u|, size, 0)
    ensures !ReadsRange(serve, m, u, addr, size, arrived)
  {
    FetchesIt(serve, m, arrived);
    assert PeekRange(m.mem, addr, 0) == [];
    ReadyAtFirst(u, Progress("", u, u, "", []));
    BrokenFrom(FetchOf(serve, arrived), m, addr, size, 0, [], Progress("", u, u, "", []), arrived, PeekRange(m.mem,
      addr, size));
  }

  /** If every response arrives before it is read, no read is broken. */
  lemma {:induction false} PromptIsUnbroken(arrived: nat -> nat, size: Word32, offset: nat)
    requires forall k :: arrived(k) >= BUFFER
    ensures Unbroken(arrived, 0, size, offset)
    decreases size - offset
  {
    if offset < size { PromptIsUnbroken(arrived, size, offset + CHUNK_SIZE); }
  }

  // ---- Loading and reading back ----

  /** What an accepted load has written, and what a read of as many bytes behind it returns,
      however the responses arrive: if the read is not broken, the data, exactly if bytes bound
      for one cell agree, as they do in all data that fits the bus. */
  lemma {:induction false} LoadThenRead(serve: Handler, m: Monitor, u: string, addr: Word32, data: seq<Byte>,
                                        arrived: nat -> nat, arrived': nat -> nat, c: nat)
    requires Answers(serve) && BusSize(|m.mem|) && AllBlank(u) && |data| < WORD32 && c < |m.mem|
    requires Loaded(SetOf(serve, arrived), Link(m, u), addr, data, 0).0
    ensures var l := Loaded(SetOf(serve, arrived), Link(m, u), addr, data, 0).1;
            var (back, l') := Fetched(FetchOf(serve, arrived'), l, addr, |data|, 0, []);
            && l.remote == m.(mem := PokeRange(m.mem, addr, data)) && AllBlank(l.unread)
            && (Unbroken(arrived', |l.unread|, |data|, 0) ==>
                  l'.remote == l.remote && AllBlank(l'.unread) && (back == data <==> Agrees(addr, data, |m.mem|)))
            && ((forall j :: 0 <= j < |data| ==> Cell(addr, j, |m.mem|) != c) ==> l.remote.mem[c] == m.mem[c])
    ensures |data| <= |m.mem| ==> Agrees(addr, data, |m.mem|)
  {
    BlanksHaveNoOk(u);
    LoadWrites(serve, m, u, addr, data, arrived);
    AllWritten(arrived, |u|, addr, |data|, 0);
    assert data[..|data|] == data;
    var l := Loaded(SetOf(serve, arrived), Link(m, u), addr, data, 0).1;
    if Unbroken(arrived', |l.unread|, |data|, 0) {
      ReadUnbroken(serve, l.remote, l.unread, addr, |data|, arrived');
    }
    PeekAfterPokeExactly(m.mem, addr, data);
    if forall j :: 0 <= j < |data| ==> Cell(addr, j, |m.mem|) != c {
      PokeRangeFrame(m.mem, addr, data, c);
    }
  }

  lemma {:induction false} BlanksHaveNoOk(u: string)
    requires AllBlank(u)
    ensures !HasOk(u)
  {
  }
}
