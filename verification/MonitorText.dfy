/** The clients' side of the serial monitor: how a command is written, how much of its
    response a client receives, and what a cut hex column still tells. */
module MonitorText {
  import opened Machine
  import opened Options
  import opened HexText
  import opened Text
  import opened LineSplitter
  import opened SerialMonitor

  // ---- Receiving ----

  /** The monitor at the other end of a connection, and what it has sent that the client has
      not read yet. */
  datatype Link = Link(remote: Monitor, unread: string)

  /** How many of `size` unread bytes one `recv` returns: at least one if there is one, and no
      more than fit the buffer. What arrives together is up to the network, here `n`. */
  function PieceSize(size: nat, n: nat, limit: nat): (k: nat)
    requires limit > 0
    ensures k <= size && k <= limit && (size > 0 ==> k > 0)
    ensures size <= n && size <= limit ==> k == size
  {
    var most := if size <= limit then size else limit;
    if n == 0 && most > 0 then 1 else if n <= most then n else most
  }

  function Piece(unread: string, n: nat, limit: nat): (k: nat)
    requires limit > 0
    ensures k <= |unread| && k <= limit && (unread != "" ==> k > 0)
    ensures |unread| <= n && |unread| <= limit ==> k == |unread|
  {
    PieceSize(|unread|, n, limit)
  }

  /** The session the monitor runs on one command line. */
  lemma {:induction false} OneLine<S>(exec: (S, string) -> (S, string), cmd: string, s: S)
    requires cmd != "" && forall i :: 0 <= i < |cmd| ==> Printable(cmd[i])
    ensures RunAll(exec, Commands(Flatten([cmd + "\n"])), s, []) == (exec(s, cmd).0, [exec(s, cmd).1 + "\n"])
  {
    OneCommand(cmd);
    assert Flatten([cmd + "\n"]) == cmd + "\n" by {
      assert [cmd + "\n"][1..] == [] && Flatten([]) == "" && (cmd + "\n") + "" == cmd + "\n";
    }
    assert [cmd][1..] == [] && [] + [exec(s, cmd).1 + "\n"] == [exec(s, cmd).1 + "\n"];
  }

  // ---- The words of a hex column ----

  function HexWords(bytes: seq<Byte>): (ws: seq<string>)
    ensures |ws| == |bytes|
  {
    seq(|bytes|, i requires 0 <= i < |bytes| => UByte2(bytes[i]))
  }

  lemma {:induction false} ByteIsWord(v: Byte)
    ensures forall i :: 0 <= i < 2 ==> !Blank(UByte2(v)[i])
    ensures !Blank(Upper(v / 16))
  {
    NibbleOfDigit(v / 16);
    NibbleOfDigit(v % 16);
  }

  lemma {:induction false} HexWordsSnoc(init: seq<Byte>, v: Byte)
    ensures HexWords(init + [v]) == HexWords(init) + [UByte2(v)]
  {
  }

  lemma {:induction false} WordsOfRaw(bytes: seq<Byte>)
    ensures Words(RawText(bytes)) == HexWords(bytes)
  {
    if bytes != [] {
      var init, v := bytes[..|bytes| - 1], bytes[|bytes| - 1];
      assert bytes == init + [v];
      WordsOfRaw(init);
      ByteIsWord(v);
      RawSnoc(init, v);
      HexWordsSnoc(init, v);
      WordBehind(RawText(init), UByte2(v));
      assert [] + [UByte2(v)] == [UByte2(v)];
    }
  }

  lemma {:induction false} HexColumnIsRaw(bytes: seq<Byte>)
    requires bytes != []
    ensures HexColumn(bytes) == RawText(bytes) + " "
  {
    var init, v := bytes[..|bytes| - 1], bytes[|bytes| - 1];
    assert bytes == init + [v];
    RawSnoc(init, v);
    if init == [] {
      assert "" + (UByte2(v) + " ") == UByte2(v) + " ";
    } else {
      HexColumnIsRaw(init);
      assert RawText(init) + " " + (UByte2(v) + " ") == RawText(init) + (" " + UByte2(v)) + " ";
    }
  }

  lemma {:induction false} HexColumnSize(bytes: seq<Byte>)
    ensures |HexColumn(bytes)| == 3 * |bytes|
  {
    if bytes != [] {
      HexColumnSize(bytes[..|bytes| - 1]);
    }
  }

  lemma {:induction false} HexColumnSnoc(init: seq<Byte>, v: Byte)
    ensures HexColumn(init + [v]) == HexColumn(init) + (UByte2(v) + " ")
  {
    assert (init + [v])[..|init|] == init;
  }

  /** The column of the first bytes starts the column. */
  lemma {:induction false} HexColumnTake(bytes: seq<Byte>, q: nat)
    requires q <= |bytes|
    ensures HexColumn(bytes[..q]) <= HexColumn(bytes)
  {
    if q < |bytes| {
      var init := bytes[..|bytes| - 1];
      HexColumnTake(init, q);
      assert init[..q] == bytes[..q];
    } else {
      assert bytes[..q] == bytes;
    }
  }

  /** The characters of the column at byte `q`. */
  lemma {:induction false} HexColumnAt(bytes: seq<Byte>, q: nat)
    requires q < |bytes|
    ensures 3 * q + 3 <= |HexColumn(bytes)|
    ensures HexColumn(bytes)[..3 * q] == HexColumn(bytes[..q])
    ensures HexColumn(bytes)[3 * q] == Upper(bytes[q] / 16) && HexColumn(bytes)[3 * q + 1] == Upper(bytes[q] % 16)
    ensures HexColumn(bytes)[3 * q + 2] == ' '
  {
    HexColumnTake(bytes, q + 1);
    HexColumnSize(bytes[..q]);
    HexColumnSize(bytes[..q + 1]);
    assert bytes[..q + 1] == bytes[..q] + [bytes[q]];
    HexColumnSnoc(bytes[..q], bytes[q]);
    var c, d := HexColumn(bytes), HexColumn(bytes[..q + 1]);
    assert d[3 * q..] == UByte2(bytes[q]) + " ";
    assert forall i :: 0 <= i < |d| ==> c[i] == d[i];
  }

  /** The bytes that the first `h` characters of a hex column tell: two digits a byte, and a
      last digit alone as a byte of its own. */
  function Told(bytes: seq<Byte>, h: nat): seq<Byte>
    requires h <= 3 * |bytes|
  {
    bytes[..(h + 1) / 3] + if h % 3 == 1 then [bytes[h / 3] / 16] else []
  }

  /** Their words. */
  function ToldWords(bytes: seq<Byte>, h: nat): seq<string>
    requires h <= 3 * |bytes|
  {
    HexWords(bytes[..(h + 1) / 3]) + if h % 3 == 1 then [[Upper(bytes[h / 3] / 16)]] else []
  }

  lemma {:induction false} WordsOfColumn(bytes: seq<Byte>)
    ensures Words(HexColumn(bytes)) == HexWords(bytes)
  {
    if bytes != [] {
      HexColumnIsRaw(bytes);
      WordsOfRaw(bytes);
      WordsAppend(RawText(bytes), " ");
      LeadingBlank("");
      assert " " + "" == " " && HexWords(bytes) + [] == HexWords(bytes);
    }
  }

  lemma {:induction false} WordBehindText(r: string, c: string, w: string)
    requires w != "" && forall i :: 0 <= i < |w| ==> !Blank(w[i])
    requires c == r + " "
    ensures Words(c + w) == Words(r) + [w]
  {
    WordBehind(r, w);
    assert c + w == r + (" " + w);
  }

  /** A word that is cut off behind whole bytes of the column. */
  lemma {:induction false} WordBehindColumn(bytes: seq<Byte>, w: string)
    requires w != "" && forall i :: 0 <= i < |w| ==> !Blank(w[i])
    ensures Words(HexColumn(bytes) + w) == HexWords(bytes) + [w]
  {
    if bytes == [] {
      WordBehind("", w);
      assert "" + w == w && [] + [w] == [w];
    } else {
      HexColumnIsRaw(bytes);
      WordsOfRaw(bytes);
      WordBehindText(RawText(bytes), HexColumn(bytes), w);
    }
  }

  /** The words of a column that is cut anywhere. */
  lemma {:induction false} CutColumnWords(bytes: seq<Byte>, h: nat)
    requires h <= 3 * |bytes|
    ensures |HexColumn(bytes)| == 3 * |bytes| && Words(HexColumn(bytes)[..h]) == ToldWords(bytes, h)
  {
    HexColumnSize(bytes);
    var q := h / 3;
    var c := HexColumn(bytes);
    if q == |bytes| {
      assert c[..h] == c && bytes[..(h + 1) / 3] == bytes && HexWords(bytes) + [] == HexWords(bytes);
      WordsOfColumn(bytes);
    } else {
      HexColumnAt(bytes, q);
      ByteIsWord(bytes[q]);
      CutColumnAt(c, bytes, q, h);
    }
  }

  lemma {:induction false} CutInFront(bytes: seq<Byte>, q: nat, text: string)
    requires q < |bytes| && text == HexColumn(bytes[..q])
    ensures Words(text) == ToldWords(bytes, 3 * q)
  {
    WordsOfColumn(bytes[..q]);
    assert HexWords(bytes[..q]) + [] == HexWords(bytes[..q]);
  }

  lemma {:induction false} CutInside(bytes: seq<Byte>, q: nat, text: string)
    requires q < |bytes| && text == HexColumn(bytes[..q]) + [Upper(bytes[q] / 16)] && !Blank(Upper(bytes[q] / 16))
    ensures Words(text) == ToldWords(bytes, 3 * q + 1)
  {
    WordBehindColumn(bytes[..q], [Upper(bytes[q] / 16)]);
  }

  lemma {:induction false} CutBehind(bytes: seq<Byte>, q: nat, text: string)
    requires q < |bytes| && text == HexColumn(bytes[..q]) + UByte2(bytes[q])
    requires forall i :: 0 <= i < 2 ==> !Blank(UByte2(bytes[q])[i])
    ensures Words(text) == ToldWords(bytes, 3 * q + 2)
  {
    WordBehindColumn(bytes[..q], UByte2(bytes[q]));
    HexWordsSnoc(bytes[..q], bytes[q]);
    assert bytes[..q + 1] == bytes[..q] + [bytes[q]];
    assert HexWords(bytes[..q + 1]) + [] == HexWords(bytes[..q + 1]);
  }

  lemma {:induction false} CutColumnAt(c: string, bytes: seq<Byte>, q: nat, h: nat)
    requires q < |bytes| && 3 * q <= h < 3 * q + 3 <= |c|
    requires c[..3 * q] == HexColumn(bytes[..q]) && c[3 * q] == Upper(bytes[q] / 16)
             && c[3 * q + 1] == Upper(bytes[q] % 16)
    requires !Blank(Upper(bytes[q] / 16)) && forall i :: 0 <= i < 2 ==> !Blank(UByte2(bytes[q])[i])
    ensures Words(c[..h]) == ToldWords(bytes, h)
  {
    if h == 3 * q {
      CutInFront(bytes, q, c[..h]);
    } else if h == 3 * q + 1 {
      assert c[..h] == c[..3 * q] + [Upper(bytes[q] / 16)];
      CutInside(bytes, q, c[..h]);
    } else {
      assert c[..h] == c[..3 * q] + UByte2(bytes[q]);
      CutBehind(bytes, q, c[..h]);
    }
  }

  /** Whether the first `need` bytes can be told from `h` characters: both digits of the last
      one are there, or the first digit of a zero. */
  predicate Reaches(bytes: seq<Byte>, h: nat, need: nat)
    requires h <= 3 * |bytes|
  {
    need <= (h + 1) / 3 || (h % 3 == 1 && need == h / 3 + 1 && bytes[h / 3] == 0)
  }

  lemma {:induction false} ToldExactly(bytes: seq<Byte>, h: nat, need: nat)
    requires h <= 3 * |bytes| && need <= |bytes|
    ensures bytes[..need] <= Told(bytes, h) <==> Reaches(bytes, h, need)
  {
    var told, q := Told(bytes, h), h / 3;
    if need <= (h + 1) / 3 {
      assert told[..need] == bytes[..need];
    } else if h % 3 == 1 && need == q + 1 {
      assert bytes[..need] == bytes[..q] + [bytes[q]] && told == bytes[..q] + [bytes[q] / 16];
      assert bytes[..need][q] == bytes[q] && told[q] == bytes[q] / 16;
    } else {
      assert |told| < need;
    }
  }

  // ---- Writing commands ----

  /** The monitor reads a printed number behind a blank, if it fits 32 bits. */
  lemma {:induction false} ExtractDigits(d: string, rest: string)
    requires d != "" && AllHex(d) && (rest != "" ==> rest[0] == ' ')
    ensures ExtractHex(" " + d + rest) == if Value(d) < WORD32 then Some((Value(d), rest)) else None
  {
    var t := d + rest;
    assert " " + d + rest == " " + t && (" " + t)[1..] == t;
    assert t[0] == d[0] && IsHex(t[0]) && (|d| > 1 ==> t[1] == d[1]);
    assert |d| == 1 && rest != "" ==> t[1] == ' ';
    assert SkipBlanks(t) == t && SkipBlanks(" " + t) == SkipBlanks(t);
    RunOfPrefix(d, rest);
    assert t[..|d|] == d && t[|d|..] == rest;
  }

  lemma {:induction false} DigitsArePrintable(d: string)
    requires AllHex(d)
    ensures forall i :: 0 <= i < |d| ==> Printable(d[i])
  {
    assert forall i :: 0 <= i < |d| ==> IsHex(d[i]);
  }
}
