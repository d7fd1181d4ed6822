/** Hexadecimal text: the digit, byte and number formats the protocols print and read.
    A string stands for a byte stream, one character a byte. */
module HexText {
  import opened Machine
  import opened Options
  import opened Text

  function Lower(v: int): char
    requires 0 <= v < 16
  {
    if v < 10 then '0' + v as char else 'a' + (v - 10) as char
  }

  function Upper(v: int): char
    requires 0 <= v < 16
  {
    if v < 10 then '0' + v as char else 'A' + (v - 10) as char
  }

  predicate IsHex(c: char) {
    '0' <= c <= '9' || 'a' <= c <= 'f' || 'A' <= c <= 'F'
  }

  /** The value of a hex digit; every other character counts as 0. */
  function Nibble(c: char): (v: int)
    ensures 0 <= v < 16
  {
    if '0' <= c <= '9' then c as int - '0' as int
    else if 'a' <= c <= 'f' then 10 + (c as int - 'a' as int)
    else if 'A' <= c <= 'F' then 10 + (c as int - 'A' as int)
    else 0
  }

  function LowerCase(c: char): char {
    if 'A' <= c <= 'Z' then (c as int + 32) as char else c
  }

  lemma {:induction false} NibbleOfDigit(v: int)
    requires 0 <= v < 16
    ensures IsHex(Lower(v)) && IsHex(Upper(v))
    ensures Nibble(Lower(v)) == v == Nibble(Upper(v))
  {
  }

  /** The sixteen digits, and their upper-case forms. */
  lemma {:induction false} DigitTable(v: int)
    requires 0 <= v < 16
    ensures Lower(v) == "0123456789abcdef"[v] && Upper(v) == "0123456789ABCDEF"[v]
    ensures Nibble("0123456789abcdef"[v]) == v == Nibble("0123456789ABCDEF"[v])
  {
  }

  /** And nothing else is a digit. */
  lemma {:induction false} DigitsAre(c: char)
    ensures IsHex(c) <==> c in "0123456789abcdefABCDEF"
  {
  }

  lemma {:induction false} DigitOfNibble(c: char)
    requires IsHex(c)
    ensures Lower(Nibble(c)) == LowerCase(c)
  {
  }

  /** `%02x` */
  function Byte2(v: Byte): (s: string)
    ensures |s| == 2
  {
    [Lower(v / 16), Lower(v % 16)]
  }

  /** `%02X` */
  function UByte2(v: Byte): (s: string)
    ensures |s| == 2
  {
    [Upper(v / 16), Upper(v % 16)]
  }

  predicate AllHex(s: string) {
    forall i :: 0 <= i < |s| ==> IsHex(s[i])
  }

  /** The number a string of hex digits spells. */
  function Value(s: string): nat {
    if s == [] then 0 else 16 * Value(s[..|s| - 1]) + Nibble(s[|s| - 1])
  }

  /** `std::hex << n`: lower case, no leading zeros. */
  function Number(n: nat): (s: string)
    ensures |s| > 0
  {
    if n < 16 then [Lower(n)] else Number(n / 16) + [Lower(n % 16)]
  }

  /** `std::hex << std::uppercase << n` */
  function UNumber(n: nat): (s: string)
    ensures |s| > 0
  {
    if n < 16 then [Upper(n)] else UNumber(n / 16) + [Upper(n % 16)]
  }

  /** The same with `setfill('0')` and `setw(width)`. */
  function Padded(n: nat, width: nat): (s: string)
    ensures |s| > 0
  {
    var t := UNumber(n);
    if |t| >= width then t else Zeros(width - |t|) + t
  }

  function Zeros(k: nat): (s: string)
    ensures |s| == k
  {
    seq(k, _ => '0')
  }

  function Pow16(k: nat): (p: nat)
    ensures p > 0
  {
    if k == 0 then 1 else 16 * Pow16(k - 1)
  }

  lemma {:induction false} NumberLength(n: nat, k: nat)
    requires 0 < k && n < Pow16(k)
    ensures |UNumber(n)| <= k
  {
    if n >= 16 {
      NumberLength(n / 16, k - 1);
    }
  }

  lemma {:induction false} ValueOfNumber(n: nat)
    ensures AllHex(Number(n)) && Value(Number(n)) == n
    ensures AllHex(UNumber(n)) && Value(UNumber(n)) == n
  {
    if n < 16 {
      NibbleOfDigit(n);
      assert [Lower(n)][..0] == [] && [Upper(n)][..0] == [];
    } else {
      ValueOfNumber(n / 16);
      NibbleOfDigit(n % 16);
      assert Number(n)[..|Number(n)| - 1] == Number(n / 16);
      assert UNumber(n)[..|UNumber(n)| - 1] == UNumber(n / 16);
    }
  }

  lemma {:induction false} ValueOfZeros(k: nat, s: string)
    requires AllHex(s)
    ensures AllHex(Zeros(k) + s) && Value(Zeros(k) + s) == Value(s)
    decreases |s|, k
  {
    if s != [] {
      var t := s[..|s| - 1];
      ValueOfZeros(k, t);
      assert (Zeros(k) + s)[..|Zeros(k) + s| - 1] == Zeros(k) + t;
    } else if k > 0 {
      ValueOfZeros(k - 1, []);
      assert (Zeros(k) + [])[..k - 1] == Zeros(k - 1) + [];
    }
  }

  lemma {:induction false} ValueBehindZeros(s: string, t: string, width: nat)
    requires AllHex(t) && s == if |t| >= width then t else Zeros(width - |t|) + t
    ensures AllHex(s) && Value(s) == Value(t)
  {
    if |t| < width { ValueOfZeros(width - |t|, t); }
  }

  /** Printing a number with leading zeros and reading it back. */
  lemma {:induction false} ValueOfPadded(n: nat, width: nat)
    ensures AllHex(Padded(n, width)) && Value(Padded(n, width)) == n
  {
    ValueOfNumber(n);
    ValueBehindZeros(Padded(n, width), UNumber(n), width);
  }

  lemma {:induction false} ValueOfPair(s: string)
    requires |s| == 2
    ensures Value(s) == 16 * Nibble(s[0]) + Nibble(s[1])
  {
    assert s[..1] == [s[0]] && s[..1][..0] == [];
    assert Value(s[..1]) == Nibble(s[0]);
  }

  lemma {:induction false} ValueOfDigit(v: int)
    requires 0 <= v < 16
    ensures AllHex([Upper(v)]) && Value([Upper(v)]) == v
  {
    NibbleOfDigit(v);
    assert [Upper(v)][..0] == [];
  }

  lemma {:induction false} ValueOfByte2(v: Byte)
    ensures AllHex(Byte2(v)) && Value(Byte2(v)) == v
    ensures AllHex(UByte2(v)) && Value(UByte2(v)) == v
  {
    NibbleOfDigit(v / 16);
    NibbleOfDigit(v % 16);
    ValueOfPair(Byte2(v));
    ValueOfPair(UByte2(v));
  }

  /** How many hex digits a string starts with. */
  function Run(s: string): (k: nat)
    ensures k <= |s| && (forall i :: 0 <= i < k ==> IsHex(s[i])) && (k < |s| ==> !IsHex(s[k]))
  {
    if s == [] || !IsHex(s[0]) then 0
    else 1 + Run(s[1..])
  }

  lemma {:induction false} RunOfPrefix(digits: string, rest: string)
    requires AllHex(digits) && (rest == [] || !IsHex(rest[0]))
    ensures Run(digits + rest) == |digits|
  {
    var s := digits + rest;
    assert forall i :: 0 <= i < |digits| ==> s[i] == digits[i];
    assert rest != [] ==> s[|digits|] == rest[0];
  }

  /** A prefix in front of hex digits. */
  predicate HexPrefix(s: string) {
    |s| > 2 && s[0] == '0' && (s[1] == 'x' || s[1] == 'X') && IsHex(s[2])
  }

  predicate Signed(s: string) {
    s != "" && (s[0] == '-' || s[0] == '+')
  }

  /** The number in front of a text without sign, with or without a prefix. */
  function Magnitude(s: string): Option<nat> {
    var d := if HexPrefix(s) then s[2..] else s;
    if Run(d) == 0 then None else Some(Value(d[..Run(d)]))
  }

  const WORD64 := 0x1_0000_0000_0000_0000

  /** `std::stoul(s, nullptr, 16)`, where `unsigned long` has 64 bits; `None` where it throws. */
  function Stoul(s: string): Option<nat> {
    var t := LStrip(s);
    match Magnitude(if Signed(t) then t[1..] else t)
    case Some(v) =>
      if v >= WORD64 then None else if Signed(t) && t[0] == '-' then Some((WORD64 - v) % WORD64) else Some(v)
    case None => None
  }

  /** `std::stoi(s, nullptr, 16)`, where `int` has 32 bits. */
  function Stoi(s: string): Option<int> {
    var t := LStrip(s);
    match Magnitude(if Signed(t) then t[1..] else t)
    case Some(v) =>
      if Signed(t) && t[0] == '-' then (if v <= 0x8000_0000 then Some(0 - v as int) else None)
      else if v < 0x8000_0000 then Some(v as int) else None
    case None => None
  }

  /** Plain digits are read as the number they spell. */
  lemma {:induction false} ReadDigits(s: string)
    requires s != "" && AllHex(s)
    ensures LStrip(s) == s && !Signed(s) && Magnitude(s) == Some(Value(s))
    ensures Stoul(s) == (if Value(s) < WORD64 then Some(Value(s)) else None)
    ensures Stoi(s) == if Value(s) < 0x8000_0000 then Some(Value(s)) else None
  {
    assert IsHex(s[0]) && (|s| > 1 ==> IsHex(s[1]));
    RunOfPrefix(s, "");
    assert s + "" == s && s[..|s|] == s;
  }

  // ---- How numbers may be written ----

  lemma {:induction false} LStripBlanks(blanks: string, t: string)
    requires AllBlank(blanks) && (t != "" ==> !Blank(t[0]))
    ensures LStrip(blanks + t) == t
  {
    if blanks == "" {
      assert blanks + t == t;
    } else {
      LStripBlanks(blanks[1..], t);
      assert (blanks + t)[1..] == blanks[1..] + t;
    }
  }

  lemma {:induction false} NoPrefix(digits: string, rest: string)
    requires digits != "" && AllHex(digits) && (rest != "" ==> rest[0] !in "xX")
    ensures !HexPrefix(digits + rest)
  {
    var d := digits + rest;
    if |digits| > 1 { assert IsHex(digits[1]) && d[1] == digits[1]; }
  }

  lemma {:induction false} PrefixIs(prefix: string, d: string)
    requires (prefix == "0x" || prefix == "0X") && d != "" && IsHex(d[0])
    ensures HexPrefix(prefix + d) && (prefix + d)[2..] == d
  {
  }

  /** A number without sign: perhaps a prefix, digits, and anything that goes on with none. */
  lemma {:induction false} MagnitudeIs(s: string, d: string, k: nat)
    requires d == (if HexPrefix(s) then s[2..] else s) && k == Run(d) && k > 0
    ensures Magnitude(s) == Some(Value(d[..k]))
  {
  }

  lemma {:induction false} BehindPrefix(prefix: string, d: string, digits: string, rest: string, s: string)
    requires (prefix == "" || prefix == "0x" || prefix == "0X") && digits != "" && AllHex(digits) && d == digits + rest
    requires rest != "" && prefix == "" ==> rest[0] !in "xX"
    requires s == prefix + d
    ensures d == if HexPrefix(s) then s[2..] else s
  {
    assert d[0] == digits[0] && IsHex(digits[0]);
    if prefix == "" {
      NoPrefix(digits, rest);
      assert s == d;
    } else {
      PrefixIs(prefix, d);
    }
  }

  lemma {:induction false} MagnitudeReads(prefix: string, digits: string, rest: string)
    requires (prefix == "" || prefix == "0x" || prefix == "0X") && digits != "" && AllHex(digits)
    requires rest != "" ==> !IsHex(rest[0]) && (prefix == "" ==> rest[0] !in "xX")
    ensures Magnitude(prefix + digits + rest) == Some(Value(digits))
  {
    var d := digits + rest;
    RunOfPrefix(digits, rest);
    assert prefix + digits + rest == prefix + d && d[..|digits|] == digits;
    BehindPrefix(prefix, d, digits, rest, prefix + d);
    MagnitudeIs(prefix + d, d, |digits|);
  }

  lemma {:induction false} SignedReads(blanks: string, sign: string, number: string, s: string, t: string)
    requires AllBlank(blanks) && (sign == "" || sign == "+" || sign == "-") && number != "" && IsHex(number[0])
    requires s == blanks + sign + number && t == sign + number
    ensures LStrip(s) == t && number == (if Signed(t) then t[1..] else t)
    ensures (sign == "-") == (Signed(t) && t[0] == '-')
  {
    assert s == blanks + t;
    LStripBlanks(blanks, t);
    if sign == "" { assert t == number; } else { assert t[1..] == number; }
  }

  lemma {:induction false} NumberIs(s: string, t: string, number: string, neg: bool, v: nat)
    requires t == LStrip(s) && number == (if Signed(t) then t[1..] else t) && Magnitude(number) == Some(v)
    requires neg == (Signed(t) && t[0] == '-')
    ensures Stoul(s) == if v >= 0x1_0000_0000_0000_0000 then None
                        else Some(if neg then (0x1_0000_0000_0000_0000 - v) % 0x1_0000_0000_0000_0000 else v)
    ensures Stoi(s) == if v > 0x8000_0000 || (v == 0x8000_0000 && !neg) then None
                       else Some(if neg then 0 - v as int else v as int)
  {
  }

  lemma {:induction false} NumberStarts(prefix: string, digits: string, rest: string)
    requires (prefix == "" || prefix == "0x" || prefix == "0X") && digits != "" && AllHex(digits)
    ensures prefix + digits + rest != "" && IsHex((prefix + digits + rest)[0])
  {
    assert IsHex(digits[0]) && IsHex('0');
    assert (prefix + digits + rest)[0] == if prefix == "" then digits[0] else '0';
  }

  /** What `std::stoul` and `std::stoi` read in base 16: blanks, a sign, a prefix, digits, and
      anything behind them. */
  lemma {:induction false} NumberReads(blanks: string, sign: string, prefix: string, digits: string, rest: string,
                                       s: string)
    requires AllBlank(blanks) && (sign == "" || sign == "+" || sign == "-") && (prefix == "" || prefix
             == "0x" || prefix == "0X") && digits != "" && AllHex(digits)
    requires rest != "" ==> !IsHex(rest[0]) && (prefix == "" ==> rest[0] !in "xX")
    requires s == blanks + sign + (prefix + digits + rest)
    ensures var v := Value(digits);
            && Stoul(s) == (if v >= 0x1_0000_0000_0000_0000 then None
                            else Some(if sign == "-"
                              then (0x1_0000_0000_0000_0000 - v) % 0x1_0000_0000_0000_0000 else v))
            && Stoi(s) == if v > 0x8000_0000 || (v == 0x8000_0000 && sign != "-") then None
                          else Some(if sign == "-" then 0 - v as int else v as int)
  {
    var number := prefix + digits + rest;
    MagnitudeReads(prefix, digits, rest);
    NumberStarts(prefix, digits, rest);
    SignedReads(blanks, sign, number, s, sign + number);
    NumberIs(s, sign + number, number, sign == "-", Value(digits));
  }

  /** And what they refuse: no digit behind the sign. */
  lemma {:induction false} NumberMissing(blanks: string, sign: string, rest: string, s: string)
    requires AllBlank(blanks) && (sign == "" || sign == "+" || sign == "-") && s == blanks + sign + rest
    requires rest != "" ==> !IsHex(rest[0]) && (sign == "" ==> !Blank(rest[0]) && rest[0] !in "+-")
    ensures Stoul(s) == None && Stoi(s) == None
  {
    var t := sign + rest;
    assert s == blanks + t;
    LStripBlanks(blanks, t);
    assert Magnitude(rest) == None;
    if sign == "" {
      assert t == rest;
    } else {
      assert t[1..] == rest;
    }
  }
}
