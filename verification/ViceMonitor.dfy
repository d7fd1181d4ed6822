/** Addresses and checksums of the VICE monitor protocol. */
module ViceMonitor {
  import opened Modular
  import opened Machine
  import opened Options
  import opened HexText

  // ---- parseAddress ----

  predicate IsDigit(c: char) {
    '0' <= c <= '9'
  }

  predicate AllDigits(s: string) {
    forall i :: 0 <= i < |s| ==> IsDigit(s[i])
  }

  function DecValue(s: string): nat {
    if s == [] then 0 else 10 * DecValue(s[..|s| - 1]) + Nibble(s[|s| - 1])
  }

  /** `std::stoul(s, nullptr, 16)` cut to 32 bits. */
  function HexAddress(s: string): Option<Word32> {
    match Stoul(s)
    case Some(v) => Some(Wrap(v))
    case None => None
  }

  function DecAddress(s: string): Option<Word32> {
    if DecValue(s) < WORD64 then Some(Wrap(DecValue(s))) else None
  }

  /** `parseAddress` of a word. */
  function ParseAddress(s: string): Option<Word32> {
    if s == "" then None
    else if s[0] == '$' then HexAddress(s[1..])
    else if "0x" <= s || "0X" <= s then HexAddress(s[2..])
    else if s[|s| - 1] == 'h' || s[|s| - 1] == 'H' then HexAddress(s[..|s| - 1])
    else if AllDigits(s) then DecAddress(s)
    else if AllHex(s) then HexAddress(s)
    else None
  }

  /** Hex digits are read back, whatever branch passes them on. */
  lemma {:induction false} HexAddressOfDigits(s: string, v: Word32)
    requires s != "" && AllHex(s) && Value(s) == v
    ensures HexAddress(s) == Some(v)
  {
    ReadDigits(s);
  }

  lemma {:induction false} DollarParses(s: string, t: string)
    requires t != "" && s == "$" + t
    ensures ParseAddress(s) == HexAddress(t)
  {
    assert s[1..] == t;
  }

  lemma {:induction false} PrefixParses(s: string, t: string)
    requires s == "0x" + t || s == "0X" + t
    ensures ParseAddress(s) == HexAddress(t)
  {
    assert s[2..] == t && s[0] == '0';
  }

  lemma {:induction false} SuffixParses(s: string, t: string)
    requires t != "" && AllHex(t) && (s == t + "h" || s == t + "H")
    ensures ParseAddress(s) == HexAddress(t)
  {
    assert s[..|s| - 1] == t && IsHex(s[0]) && (|t| >= 2 ==> IsHex(s[1]));
  }

  /** `parseAddress("$" + formatHex(v, width))`, and the other marked forms, give `v` back. */
  lemma {:induction false} MarkedAddressParses(v: Word32, width: nat)
    ensures ParseAddress("$" + Padded(v, width)) == Some(v)
    ensures ParseAddress("0x" + Padded(v, width)) == ParseAddress("0X" + Padded(v, width)) == Some(v)
    ensures ParseAddress(Padded(v, width) + "h") == ParseAddress(Padded(v, width) + "H") == Some(v)
  {
    var t := Padded(v, width);
    ValueOfPadded(v, width);
    HexAddressOfDigits(t, v);
    DollarParses("$" + t, t);
    PrefixParses("0x" + t, t);
    PrefixParses("0X" + t, t);
    SuffixParses(t + "h", t);
    SuffixParses(t + "H", t);
  }

  /** Reading hex digits as decimal ones gives less, except below ten. */
  lemma {:induction false} DecimalIsLess(s: string)
    requires AllDigits(s)
    ensures DecValue(s) <= Value(s) && (DecValue(s) == Value(s) <==> Value(s) < 10)
  {
    if s != [] {
      DecimalIsLess(s[..|s| - 1]);
    }
  }

  /** Without a mark, the printed form is read back exactly if it is below ten or shows a
      letter; otherwise it is taken for a decimal number. */
  lemma {:induction false} BareAddressExactly(v: Word32, width: nat)
    ensures ParseAddress(Padded(v, width)) == Some(v) <==> v < 10 || !AllDigits(Padded(v, width))
  {
    var t := Padded(v, width);
    ValueOfPadded(v, width);
    assert IsHex(t[0]) && IsHex(t[|t| - 1]) && (|t| >= 2 ==> IsHex(t[1]));
    if AllDigits(t) {
      DecimalIsLess(t);
      ModUnique(DecValue(t), 0, DecValue(t), WORD32);
    } else {
      HexAddressOfDigits(t, v);
    }
  }

  /** A decimal number as it is written. */
  function Decimal(n: nat): (s: string)
    ensures |s| > 0
  {
    if n < 10 then [("0123456789")[n]] else Decimal(n / 10) + [("0123456789")[n % 10]]
  }

  lemma {:induction false} DecimalDigit(v: nat)
    requires v < 10
    ensures IsDigit("0123456789"[v]) && Nibble("0123456789"[v]) == v
  {
  }

  lemma {:induction false} DigitBehind(front: string, c: char, n: nat, v: nat)
    requires AllDigits(front) && DecValue(front) == n && IsDigit(c) && Nibble(c) == v
    ensures AllDigits(front + [c]) && DecValue(front + [c]) == 10 * n + v
  {
    assert (front + [c])[..|front|] == front;
  }

  lemma {:induction false} DecimalIs(n: nat)
    ensures AllDigits(Decimal(n)) && DecValue(Decimal(n)) == n
  {
    DecimalDigit(n % 10);
    if n >= 10 {
      DecimalIs(n / 10);
      DigitBehind(Decimal(n / 10), "0123456789"[n % 10], n / 10, n % 10);
    } else {
      DigitBehind("", "0123456789"[n], 0, n);
      assert "" + ["0123456789"[n]] == ["0123456789"[n]];
    }
  }

  lemma {:induction false} DigitsAreUnmarked(s: string)
    requires s != "" && AllDigits(s)
    ensures ParseAddress(s) == DecAddress(s)
  {
    assert IsDigit(s[0]) && IsDigit(s[|s| - 1]) && (|s| > 1 ==> IsDigit(s[1]));
  }

  /** A decimal number that fits 64 bits is read as the number it is, cut to 32 bits. */
  lemma {:induction false} DecimalParses(n: nat)
    ensures ParseAddress(Decimal(n)) == if n < 0x1_0000_0000_0000_0000 then Some(n % 0x1_0000_0000) else None
  {
    DecimalIs(n);
    DigitsAreUnmarked(Decimal(n));
  }

  lemma {:induction false} OddCharacter(s: string, i: nat)
    requires i < |s| && s[i] !in "0123456789abcdefABCDEF"
    ensures !AllHex(s) && !AllDigits(s)
  {
    DigitsAre(s[i]);
    assert !IsHex(s[i]) && !IsDigit(s[i]);
  }

  /** A word without a mark that holds anything but hex digits is refused. */
  lemma {:induction false} OddAddressFails(s: string, i: nat)
    requires i < |s| && s[i] !in "0123456789abcdefABCDEF"
    requires s[0] != '$' && !("0x" <= s) && !("0X" <= s) && s[|s| - 1] !in "hH"
    ensures ParseAddress(s) == None
  {
    OddCharacter(s, i);
  }

  // ---- cmd_checksum ----

  const SUM24 := 0x100_0000

  function ByteSum(bytes: seq<Byte>): nat {
    if bytes == [] then 0 else ByteSum(bytes[..|bytes| - 1]) + bytes[|bytes| - 1]
  }

  /** The bytes of an inclusive range. */
  function Range(m: Memory, start: Word32, end: Word32): seq<Byte> {
    if start <= end then PeekRange(m, start, end - start + 1) else []
  }

  function Checksum(m: Memory, start: Word32, end: Word32): (c: nat)
    ensures c < SUM24
  {
    ByteSum(Range(m, start, end)) % SUM24
  }

  /** The loop of `cmd_checksum`; from an end of 0xFFFFFFFF it would not return. */
  method ComputeChecksum(bus: Bus, start: Word32, end: Word32) returns (checksum: nat)
    requires bus.Valid() && end < 0xFFFF_FFFF
    ensures checksum == Checksum(bus.cells[..], start, end)
  {
    checksum := 0;
    var addr := start;
    ghost var bytes := Range(bus.cells[..], start, end);
    while addr <= end
      invariant start <= addr && (start <= end ==> addr <= end + 1) && (start > end ==> addr == start)
      invariant checksum == ByteSum(bytes[..addr - start]) % SUM24
      decreases end + 1 - addr
    {
      assert bytes[..addr - start + 1][..addr - start] == bytes[..addr - start];
      ModSum(ByteSum(bytes[..addr - start]), bytes[addr - start], SUM24);
      checksum := checksum + bus.Peek8(addr);
      checksum := checksum % SUM24;
      addr := addr + 1;
    }
    assert bytes[..|bytes|] == bytes;
  }

  /** After `k` rounds the loop's address, which wraps, is past the end. */
  predicate PastEnd(start: Word32, end: Word32, k: nat) {
    Wrap(start + k) > end
  }

  /** The loop's address passes the end at some time exactly below 0xFFFFFFFF. */
  lemma {:induction false} LoopEndsExactly(start: Word32, end: Word32)
    ensures (exists k: nat :: PastEnd(start, end, k)) <==> end < 0xFFFF_FFFF
  {
    if end < 0xFFFF_FFFF {
      var k: nat := 0xFFFF_FFFF - start;
      assert PastEnd(start, end, k);
    }
  }

  lemma {:induction false} ByteSumAppend(a: seq<Byte>, b: seq<Byte>)
    ensures ByteSum(a + b) == ByteSum(a) + ByteSum(b)
    decreases |b|
  {
    if b == [] {
      assert a + b == a;
    } else {
      ByteSumAppend(a, b[..|b| - 1]);
      assert (a + b)[..|a + b| - 1] == a + b[..|b| - 1];
    }
  }

  /** The checksum of a range is the sum of its parts' checksums, wherever it is split. */
  lemma {:induction false} ChecksumSplits(m: Memory, start: Word32, mid: Word32, end: Word32)
    requires start <= mid < end
    ensures Checksum(m, start, end) == (Checksum(m, start, mid) + Checksum(m, mid + 1, end)) % SUM24
  {
    var a, b := Range(m, start, mid), Range(m, mid + 1, end);
    assert Range(m, start, end) == a + b;
    ByteSumAppend(a, b);
    ModSum(ByteSum(a), ByteSum(b) % SUM24, SUM24);
    ModSum(ByteSum(b), ByteSum(a), SUM24);
  }

  lemma {:induction false} ByteSumUpdate(s: seq<Byte>, i: nat, v: Byte)
    requires i < |s|
    ensures ByteSum(s[i := v]) == ByteSum(s) - s[i] + v
  {
    var n := |s| - 1;
    if i == n {
      assert s[i := v][..n] == s[..n];
    } else {
      ByteSumUpdate(s[..n], i, v);
      assert s[i := v][..n] == s[..n][i := v];
    }
  }

  /** A changed byte changes the checksum, if the range reads no cell twice. */
  lemma {:induction false} OneChangeShows(m: Memory, start: Word32, end: Word32, addr: Word32, v: Byte)
    requires start <= addr <= end && end - start < |m| && v != Peek(m, addr)
    ensures Checksum(Poke(m, addr, v), start, end) != Checksum(m, start, end)
  {
    var s, i := Range(m, start, end), addr - start;
    var changed := Range(Poke(m, addr, v), start, end);
    forall k | 0 <= k < |s|
      ensures changed[k] == s[i := v][k]
    {
      PeekPoke(m, start + k, addr, v);
    }
    assert changed == s[i := v];
    ByteSumUpdate(s, i, v);
    NearSums(ByteSum(s), s[i], v);
  }

  lemma {:induction false} SameCell(a: int, b: int, n: int)
    requires -n < a - b < n
    ensures a % n == b % n <==> a == b
  {
    ModEqual(a, b, n);
    if a > b {
      ModUnique(a - b, 0, a - b, n);
    } else if a < b {
      ModUnique(a - b, -1, a - b + n, n);
    }
  }

  lemma {:induction false} PeekPoke(m: Memory, a: int, b: int, v: Byte)
    requires -|m| < a - b < |m|
    ensures Peek(Poke(m, b, v), a) == if a == b then v else Peek(m, a)
  {
    SameCell(a, b, |m|);
  }

  lemma {:induction false} NearSums(sum: int, old_: Byte, new_: Byte)
    requires old_ != new_
    ensures (sum - old_ + new_) % SUM24 != sum % SUM24
  {
    SameCell(sum - old_ + new_, sum, SUM24);
  }

  /** The printed checksum has six digits, and they spell it. */
  lemma {:induction false} ChecksumText(c: nat)
    requires c < SUM24
    ensures |Padded(c, 6)| == 6 && Value(Padded(c, 6)) == c
  {
    ValueOfPadded(c, 6);
    NumberLength(c, 6);
  }
}
