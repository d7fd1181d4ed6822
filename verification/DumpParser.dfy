/** How the Python SDK parses the monitor's printed memory dump, whole or cut anywhere. */
module DumpParser {
  import opened Machine
  import opened Options
  import opened HexText
  import opened Text
  import opened SerialMonitor
  import opened MonitorText

  // ---- The text functions of Python that the parser uses ----

  /** `rstrip` */
  function RStrip(s: string): (t: string)
    ensures t <= s
  {
    if s != "" && Blank(s[|s| - 1]) then RStrip(s[..|s| - 1]) else s
  }

  /** `strip` */
  function Strip(s: string): string {
    LStrip(RStrip(s))
  }

  /** `split('\n')` */
  function SplitLines(s: string): (lines: seq<string>)
    ensures |lines| > 0
    decreases |s|
  {
    var i := IndexOf(s, '\n');
    if i == |s| then [s] else [s[..i]] + SplitLines(s[i + 1..])
  }

  predicate ErrorAt(s: string, i: nat)
    requires i + 5 <= |s|
  {
    s[i] == 'E' && s[i + 1] == 'R' && s[i + 2] == 'R' && s[i + 3] == 'O' && s[i + 4] == 'R'
  }

  /** `'ERROR' in s` */
  predicate HasError(s: string) {
    exists i :: 0 <= i <= |s| - 5 && ErrorAt(s, i)
  }

  // ---- The parser ----

  /** Hex digits, with single underscores between them. */
  predicate PyDigits(s: string) {
    && s != "" && s[0] != '_' && s[|s| - 1] != '_'
    && forall i :: 0 <= i < |s| ==> PyDigitAt(s, i)
  }

  predicate PyDigitAt(s: string, i: nat)
    requires i < |s|
  {
    if s[i] == '_' then i > 0 && s[i - 1] != '_' else IsHex(s[i])
  }

  function WithoutUnderscores(s: string): string {
    if s == "" then "" else WithoutUnderscores(s[..|s| - 1]) + if s[|s| - 1] == '_' then "" else [s[|s| - 1]]
  }

  /** The digits behind a prefix 0x, which one underscore may follow. */
  function BehindPrefix(s: string): string {
    if |s| < 2 || s[0] != '0' || (s[1] != 'x' && s[1] != 'X') then s
    else if |s| > 2 && s[2] == '_' then s[3..]
    else s[2..]
  }

  /** `int(word, 16)`; `None` is the ValueError. */
  function PyInt(word: string): Option<int> {
    var digits := BehindPrefix(if Signed(word) then word[1..] else word);
    if !PyDigits(digits) then None
    else
      var v := Value(WithoutUnderscores(digits));
      Some(if word[0] == '-' then 0 - v as int else v)
  }

  /** The number appended to a `bytearray`; words that are no byte are skipped. */
  function PyByte(word: string): seq<Byte> {
    match PyInt(word)
    case Some(v) => if 0 <= v < 256 then [v] else []
    case None => []
  }

  function PyBytes(words: seq<string>): seq<Byte> {
    if words == [] then [] else PyBytes(words[..|words| - 1]) + PyByte(words[|words| - 1])
  }

  /** The text between the first and the second colon of a line. */
  function Middle(line: string): string {
    var i := IndexOf(line, ':');
    if i == |line| then "" else
      var rest := line[i + 1..];
      rest[..IndexOf(rest, ':')]
  }

  /** Its first 16 words. */
  function HexPart(line: string): seq<string> {
    var ws := Words(Middle(line));
    if |ws| <= 16 then ws else ws[..16]
  }

  function LineBytes(line: string): seq<Byte> {
    PyBytes(HexPart(line))
  }

  function ParseDump(lines: seq<string>): seq<Byte> {
    if lines == [] then [] else ParseDump(lines[..|lines| - 1]) + LineBytes(lines[|lines| - 1])
  }

  /** What `read_memory` makes of the monitor's answer; `None` is the ProtocolError. */
  function ParseResponse(response: string): Option<seq<Byte>> {
    if HasError(response) then None else Some(ParseDump(SplitLines(response)))
  }

  // ---- Trimming changes nothing ----

  lemma {:induction false} RStripKeeps(s: string, i: nat)
    requires i < |s| && !Blank(s[i])
    ensures i < |RStrip(s)|
    decreases |s|
  {
    if Blank(s[|s| - 1]) {
      RStripKeeps(s[..|s| - 1], i);
    }
  }

  lemma {:induction false} ErrorInTrimmed(s: string)
    ensures HasError(RStrip(s)) <==> HasError(s)
  {
    var t := RStrip(s);
    if HasError(s) {
      var i :| 0 <= i <= |s| - 5 && ErrorAt(s, i);
      RStripKeeps(s, i + 4);
      assert ErrorAt(t, i);
    }
    if HasError(t) {
      var i :| 0 <= i <= |t| - 5 && ErrorAt(t, i);
      assert ErrorAt(s, i);
    }
  }

  lemma {:induction false} WordsWithEnd(s: string, b: char)
    requires Blank(b)
    ensures Words(s + [b]) == Words(s)
  {
    WordsAppend(s, [b]);
    assert [b][1..] == "" && Words(s) + [] == Words(s);
  }

  /** A character behind a text does not move its first colon, unless it is one. */
  lemma {:induction false} IndexWithEnd(s: string, c: char, b: char)
    requires b != c
    ensures IndexOf(s + [b], c) == if IndexOf(s, c) == |s| then |s| + 1 else IndexOf(s, c)
  {
    var t := s + [b];
    assert forall i :: 0 <= i < |s| ==> t[i] == s[i];
    assert t[|s|] == b;
  }

  lemma {:induction false} MiddleIs(line: string, i: nat, rest: string)
    requires i == IndexOf(line, ':') && i < |line| && rest == line[i + 1..]
    ensures Middle(line) == rest[..IndexOf(rest, ':')]
  {
  }

  lemma {:induction false} DropEnd(line: string, i: nat, b: char)
    requires i < |line|
    ensures (line + [b])[i + 1..] == line[i + 1..] + [b]
  {
  }

  lemma {:induction false} MiddleWithEnd(line: string, b: char)
    requires Blank(b)
    ensures Middle(line + [b]) == Middle(line) || Middle(line + [b]) == Middle(line) + [b]
  {
    IndexWithEnd(line, ':', b);
    var i := IndexOf(line, ':');
    if i < |line| {
      var rest := line[i + 1..];
      DropEnd(line, i, b);
      MiddleIs(line, i, rest);
      MiddleIs(line + [b], i, rest + [b]);
      MiddleEnd(rest, b);
    }
  }

  lemma {:induction false} MiddleEnd(rest: string, b: char)
    requires Blank(b)
    ensures var j, j' := IndexOf(rest, ':'), IndexOf(rest + [b], ':');
            (rest + [b])[..j'] == rest[..j] || (rest + [b])[..j'] == rest[..j] + [b]
  {
    IndexWithEnd(rest, ':', b);
    var j := IndexOf(rest, ':');
    if j == |rest| {
      assert rest[..j] == rest && (rest + [b])[..|rest| + 1] == rest + [b];
    } else {
      assert (rest + [b])[..j] == rest[..j];
    }
  }

  lemma {:induction false} LineWithEnd(line: string, b: char)
    requires Blank(b)
    ensures LineBytes(line + [b]) == LineBytes(line)
  {
    MiddleWithEnd(line, b);
    WordsWithEnd(Middle(line), b);
  }

  lemma {:induction false} ParseSnoc(lines: seq<string>, line: string)
    ensures ParseDump(lines + [line]) == ParseDump(lines) + LineBytes(line)
  {
    assert (lines + [line])[..|lines|] == lines;
  }

  lemma {:induction false} SplitFirst(line: string, rest: string, s: string)
    requires '\n' !in line && s == line + ['\n'] + rest
    ensures SplitLines(s) == [line] + SplitLines(rest)
  {
    assert forall i :: 0 <= i < |line| ==> s[i] == line[i];
    assert s[|line|] == '\n';
    assert IndexOf(s, '\n') == |line| && s[..|line|] == line && s[|line| + 1..] == rest;
  }

  lemma {:induction false} SplitNone(line: string)
    requires '\n' !in line
    ensures SplitLines(line) == [line]
  {
  }

  lemma {:induction false} AtFeed(s: string, i: nat)
    requires i == IndexOf(s, '\n') < |s|
    ensures '\n' !in s[..i] && s == s[..i] + ['\n'] + s[i + 1..]
  {
  }

  lemma {:induction false} EndAssoc(line: string, rest: string, b: char)
    ensures line + ['\n'] + rest + [b] == line + ['\n'] + (rest + [b])
  {
  }

  /** A blank behind a text only lengthens its last line, or adds an empty one. */
  lemma {:induction false} SplitWithEnd(s: string, b: char)
    ensures var lines, n := SplitLines(s), |SplitLines(s)| - 1;
            SplitLines(s + [b]) == if b == '\n' then lines + [""] else lines[..n] + [lines[n] + [b]]
    decreases |s|
  {
    var i := IndexOf(s, '\n');
    if i == |s| {
      SplitLast(s, b);
    } else {
      AtFeed(s, i);
      SplitWithEnd(s[i + 1..], b);
      SplitBehind(s[..i], s[i + 1..], b, s);
    }
  }

  lemma {:induction false} SplitLast(s: string, b: char)
    requires IndexOf(s, '\n') == |s|
    ensures SplitLines(s) == [s] && SplitLines(s + [b]) == if b == '\n' then [s] + [""] else [s + [b]]
  {
    if b == '\n' {
      assert s + [b] == s + ['\n'] + "";
      SplitFirst(s, "", s + [b]);
      SplitNone("");
    } else {
      SplitNone(s + [b]);
    }
  }

  lemma {:induction false} SplitBehind(line: string, rest: string, b: char, s: string)
    requires '\n' !in line && s == line + ['\n'] + rest
    ensures SplitLines(s) == [line] + SplitLines(rest)
    ensures var lines, n := SplitLines(rest), |SplitLines(rest)| - 1;
            var more := if b == '\n' then lines + [""] else lines[..n] + [lines[n] + [b]];
            SplitLines(rest + [b]) == more ==>
              (var all := [line] + lines;
               SplitLines(s + [b]) == if b == '\n' then all + [""] else all[..n + 1] + [all[n + 1] + [b]])
  {
    SplitFirst(line, rest, s);
    EndAssoc(line, rest, b);
    SplitFirst(line, rest + [b], s + [b]);
    JoinFirst(line, SplitLines(rest), b);
  }

  lemma {:induction false} JoinFirst(first: string, lines: seq<string>, b: char)
    requires lines != []
    ensures var all, n := [first] + lines, |lines|;
            && [first] + (lines + [""]) == all + [""]
            && [first] + (lines[..n - 1] + [lines[n - 1] + [b]]) == all[..n] + [all[n] + [b]]
  {
  }

  lemma {:induction false} ParseEmptyEnd(lines: seq<string>)
    ensures ParseDump(lines + [""]) == ParseDump(lines)
  {
    ParseSnoc(lines, "");
    assert HexPart("") == [];
  }

  lemma {:induction false} ParseLongerLast(lines: seq<string>, line: string, b: char)
    requires Blank(b)
    ensures ParseDump(lines + [line + [b]]) == ParseDump(lines + [line])
  {
    ParseSnoc(lines, line + [b]);
    ParseSnoc(lines, line);
    LineWithEnd(line, b);
  }

  lemma {:induction false} ParseLonger(lines: seq<string>, lines': seq<string>, init: seq<string>, last: string,
                                       b: char)
    requires Blank(b) && lines == init + [last] && lines' == init + [last + [b]]
    ensures ParseDump(lines') == ParseDump(lines)
  {
    ParseLongerLast(init, last, b);
  }

  lemma {:induction false} ParseEnds(lines: seq<string>, lines': seq<string>, b: char)
    requires Blank(b) && lines != []
    requires var n := |lines| - 1; lines' == if b == '\n' then lines + [""] else lines[..n] + [lines[n] + [b]]
    ensures ParseDump(lines') == ParseDump(lines)
  {
    if b == '\n' {
      ParseEmptyEnd(lines);
    } else {
      ParseLonger(lines, lines', lines[..|lines| - 1], lines[|lines| - 1], b);
    }
  }

  lemma {:induction false} ParseWithEnd(s: string, b: char)
    requires Blank(b)
    ensures ParseDump(SplitLines(s + [b])) == ParseDump(SplitLines(s))
  {
    SplitWithEnd(s, b);
    ParseEnds(SplitLines(s), SplitLines(s + [b]), b);
  }

  lemma {:induction false} RStripSnoc(init: string, b: char)
    ensures RStrip(init + [b]) == if Blank(b) then RStrip(init) else init + [b]
  {
    assert (init + [b])[..|init|] == init;
  }

  lemma {:induction false} ParseTrimmed(s: string)
    ensures ParseDump(SplitLines(RStrip(s))) == ParseDump(SplitLines(s))
    decreases |s|
  {
    if s != "" {
      var init, b := s[..|s| - 1], s[|s| - 1];
      assert s == init + [b];
      RStripSnoc(init, b);
      if Blank(b) {
        ParseTrimmed(init);
        ParseWithEnd(init, b);
        assert RStrip(s) == RStrip(init);
      } else {
        assert RStrip(s) == s;
      }
    }
  }

  // ---- Lines in front of lines ----

  lemma {:induction false} BytesAssoc(a: seq<Byte>, b: seq<Byte>, c: seq<Byte>)
    ensures a + b + c == a + (b + c)
  {
  }

  lemma {:induction false} DumpOneMore(front: seq<string>, line: string, all: seq<string>, before: seq<Byte>,
                                       middle: seq<Byte>, last: seq<Byte>)
    requires all == front + [line] && ParseDump(front) == before + middle && last == middle + LineBytes(line)
    ensures ParseDump(all) == before + last
  {
    ParseSnoc(front, line);
    BytesAssoc(before, middle, LineBytes(line));
  }

  lemma {:induction false} FrontAnd(a: seq<string>, b: seq<string>, init: seq<string>, line: string)
    requires b == init + [line]
    ensures a + b == a + init + [line]
  {
  }

  lemma {:induction false} DumpAppend(a: seq<string>, b: seq<string>)
    ensures ParseDump(a + b) == ParseDump(a) + ParseDump(b)
    decreases |b|
  {
    if b == [] {
      assert a + b == a;
    } else {
      var init, line := b[..|b| - 1], b[|b| - 1];
      FrontAndLast(b, |b| - 1);
      DumpAppend(a, init);
      ParseSnoc(init, line);
      FrontAnd(a, b, init, line);
      DumpOneMore(a + init, line, a + b, ParseDump(a), ParseDump(init), ParseDump(b));
    }
  }

  lemma {:induction false} DumpOfOne(line: string)
    ensures ParseDump([line]) == LineBytes(line)
  {
    assert [] + [line] == [line];
    ParseSnoc([], line);
  }

  lemma {:induction false} IndexBehind(b: char, t: string, c: char)
    requires b != c
    ensures IndexOf([b] + t, c) == 1 + IndexOf(t, c)
  {
    assert ([b] + t)[1..] == t;
  }

  lemma {:induction false} DropFirst(b: char, line: string, i: nat)
    requires i <= |line|
    ensures ([b] + line)[1 + i..] == line[i..]
  {
  }

  lemma {:induction false} MiddleBehindBlank(b: char, line: string, i: nat)
    requires b != ':' && i == IndexOf(line, ':')
    ensures Middle([b] + line) == Middle(line)
  {
    IndexBehind(b, line, ':');
    if i < |line| {
      DropFirst(b, line, i + 1);
      MiddleIs([b] + line, i + 1, line[i + 1..]);
      MiddleIs(line, i, line[i + 1..]);
    }
  }

  lemma {:induction false} LineBehind(b: char, line: string)
    requires Blank(b)
    ensures LineBytes([b] + line) == LineBytes(line)
  {
    MiddleBehindBlank(b, line, IndexOf(line, ':'));
  }

  lemma {:induction false} SplitBehindBlank(b: char, t: string)
    requires b != '\n'
    ensures SplitLines([b] + t) == [[b] + SplitLines(t)[0]] + SplitLines(t)[1..]
  {
    IndexBehind(b, t, '\n');
    var i := IndexOf(t, '\n');
    if i == |t| {
      assert [[b] + t] + [] == [[b] + t];
    } else {
      assert ([b] + t)[..i + 1] == [b] + t[..i] && ([b] + t)[i + 2..] == t[i + 1..];
    }
  }

  /** A blank in front of a text tells nothing. */
  lemma {:induction false} ParseBehindBlank(b: char, t: string)
    requires Blank(b)
    ensures ParseDump(SplitLines([b] + t)) == ParseDump(SplitLines(t))
  {
    var lines := SplitLines(t);
    if b == '\n' {
      assert "" + ['\n'] + t == [b] + t;
      SplitFirst("", t, [b] + t);
      DumpAppend([""], lines);
      DumpOfOne("");
      assert HexPart("") == [] && [] + ParseDump(lines) == ParseDump(lines);
    } else {
      SplitBehindBlank(b, t);
      DumpAppend([[b] + lines[0]], lines[1..]);
      DumpAppend([lines[0]], lines[1..]);
      DumpOfOne([b] + lines[0]);
      DumpOfOne(lines[0]);
      LineBehind(b, lines[0]);
      assert [lines[0]] + lines[1..] == lines;
    }
  }

  lemma {:induction false} ErrorBehindBlank(b: char, t: string)
    requires Blank(b)
    ensures HasError([b] + t) <==> HasError(t)
  {
    var s := [b] + t;
    assert forall i :: 0 <= i < |t| ==> t[i] == s[1 + i];
    if HasError(s) {
      var i :| 0 <= i <= |s| - 5 && ErrorAt(s, i);
      assert i > 0;
      assert ErrorAt(t, i - 1);
    }
    if HasError(t) {
      var i :| 0 <= i <= |t| - 5 && ErrorAt(t, i);
      assert ErrorAt(s, i + 1);
    }
  }

  lemma {:induction false} ParseLStripped(s: string)
    ensures ParseResponse(LStrip(s)) == ParseResponse(s)
    decreases |s|
  {
    if s != "" && Blank(s[0]) {
      ParseLStripped(s[1..]);
      assert s == [s[0]] + s[1..];
      ParseBehindBlank(s[0], s[1..]);
      ErrorBehindBlank(s[0], s[1..]);
    }
  }

  /** Trimming a response changes nothing. */
  lemma {:induction false} ParseStripped(s: string)
    ensures ParseResponse(Strip(s)) == ParseResponse(s)
  {
    ParseLStripped(RStrip(s));
    ParseTrimmed(s);
    ErrorInTrimmed(s);
  }

  lemma {:induction false} FeedAt(a: string, i: nat, b: string)
    requires i == IndexOf(a, '\n') < |a|
    ensures a + "\n" + b == a[..i] + ['\n'] + (a[i + 1..] + "\n" + b)
  {
  }

  lemma {:induction false} SplitFeed(a: string, b: string)
    ensures SplitLines(a + "\n" + b) == SplitLines(a) + SplitLines(b)
    decreases |a|
  {
    var i := IndexOf(a, '\n');
    if i == |a| {
      SplitFirst(a, b, a + "\n" + b);
    } else {
      var rest := a[i + 1..];
      FeedAt(a, i, b);
      SplitFeed(rest, b);
      SplitFirst(a[..i], rest + "\n" + b, a + "\n" + b);
      LinesAssoc(a[..i], SplitLines(rest), SplitLines(b));
    }
  }

  lemma {:induction false} LinesAssoc(line: string, a: seq<string>, b: seq<string>)
    ensures [line] + (a + b) == [line] + a + b
  {
  }

  /** What two texts tell, one after the other. */
  function Both(a: Option<seq<Byte>>, b: Option<seq<Byte>>): Option<seq<Byte>> {
    if a.None? || b.None? then None else Some(a.value + b.value)
  }

  /** Lines in front of a text are parsed on their own. */
  lemma {:induction false} ParseFeed(a: string, b: string)
    ensures ParseResponse(a + "\n" + b) == Both(ParseResponse(a), ParseResponse(b))
  {
    SplitFeed(a, b);
    DumpAppend(SplitLines(a), SplitLines(b));
    ErrorInLines(a, b);
  }

  lemma {:induction false} ParseEnded(text: string)
    ensures ParseResponse(text + "\n") == ParseResponse(text)
  {
    EmptyLine();
    DumpOfOne("");
    SplitNone("");
    ParseFeed(text, "");
    assert text + "\n" + "" == text + "\n";
    BothEnds(ParseResponse(text));
  }

  lemma {:induction false} BothEnds(a: Option<seq<Byte>>)
    ensures Both(a, Some([])) == a && Both(Some([]), a) == a
  {
    if a.Some? { assert a.value + [] == a.value && [] + a.value == a.value; }
  }

  // ---- A dump line that is cut anywhere ----

  /** How many characters of the hex column, and of the ASCII column, stand among the first
      `j` of a dump line whose address has `w` digits. */
  function HexShown(w: nat, j: nat): (h: nat)
    ensures h <= 3 * COLS
  {
    if j <= w + 2 then 0 else if j <= w + 2 + 3 * COLS then j - w - 2 else 3 * COLS
  }

  function AsciiShown(w: nat, j: nat): (n: nat)
    ensures n <= COLS
  {
    if j <= w + 3 + 3 * COLS then 0 else if j <= w + 3 + 4 * COLS then j - w - 3 - 3 * COLS else COLS
  }

  lemma {:induction false} NoUnderscores(s: string)
    requires AllHex(s)
    ensures WithoutUnderscores(s) == s
  {
    if s != "" {
      NoUnderscores(s[..|s| - 1]);
      assert s == s[..|s| - 1] + [s[|s| - 1]];
    }
  }

  lemma {:induction false} DigitsHaveNoPrefix(d: string)
    requires d != "" && AllHex(d)
    ensures !Signed(d) && BehindPrefix(d) == d
  {
    assert IsHex(d[0]) && (|d| > 1 ==> IsHex(d[1]));
  }

  lemma {:induction false} DigitsOnly(d: string)
    requires d != "" && AllHex(d)
    ensures PyDigits(d)
  {
  }

  /** Plain digits spell their number. */
  lemma {:induction false} PyIntOfDigits(d: string)
    requires d != "" && AllHex(d)
    ensures PyInt(d) == Some(Value(d))
  {
    DigitsHaveNoPrefix(d);
    DigitsOnly(d);
    NoUnderscores(d);
  }

  lemma {:induction false} PyIntIs(word: string, unsigned: string, digits: string, neg: bool)
    requires unsigned == (if Signed(word) then word[1..] else word) && digits == BehindPrefix(unsigned)
             && PyDigits(digits)
    requires word != "" && neg == (word[0] == '-')
    ensures PyInt(word) == Some(if neg then 0 - Value(WithoutUnderscores(digits)) as int
            else Value(WithoutUnderscores(digits)))
  {
  }

  lemma {:induction false} PrefixBehind(prefix: string, digits: string)
    requires digits != "" && AllHex(digits)
    requires prefix == "" || prefix == "0x" || prefix == "0X" || prefix == "0x_" || prefix == "0X_"
    ensures BehindPrefix(prefix + digits) == digits
  {
    assert IsHex(digits[0]);
    if prefix == "" {
      DigitsHaveNoPrefix(digits);
      assert prefix + digits == digits;
    } else {
      assert (prefix + digits)[|prefix|..] == digits;
    }
  }

  lemma {:induction false} NoSign(prefix: string, digits: string)
    requires digits != "" && AllHex(digits)
    requires prefix == "" || prefix == "0x" || prefix == "0X" || prefix == "0x_" || prefix == "0X_"
    ensures var word := prefix + digits; !Signed(word) && word != "" && word[0] != '-'
  {
    assert IsHex(digits[0]);
  }

  /** What `int(word, 16)` reads: a sign, a prefix that an underscore may follow, and digits. */
  lemma {:induction false} PyIntReads(sign: string, prefix: string, digits: string, word: string)
    requires (sign == "" || sign == "+" || sign == "-") && digits != "" && AllHex(digits)
    requires prefix == "" || prefix == "0x" || prefix == "0X" || prefix == "0x_" || prefix == "0X_"
    requires word == sign + (prefix + digits)
    ensures PyInt(word) == Some(if sign == "-" then 0 - Value(digits) as int else Value(digits))
  {
    var unsigned := prefix + digits;
    DigitsOnly(digits);
    NoUnderscores(digits);
    PrefixBehind(prefix, digits);
    NoSign(prefix, digits);
    if sign == "" { assert word == unsigned; } else { assert word[1..] == unsigned; }
    PyIntIs(word, unsigned, digits, sign == "-");
  }

  lemma {:induction false} WithoutOne(a: string, b: string)
    requires AllHex(a) && AllHex(b)
    ensures WithoutUnderscores(a + "_" + b) == a + b
    decreases |b|
  {
    var s := a + "_" + b;
    if b == "" {
      assert s[..|s| - 1] == a && a + b == a && a + "" == a;
      NoUnderscores(a);
    } else {
      var init, c := b[..|b| - 1], b[|b| - 1];
      assert s[..|s| - 1] == a + "_" + init && s[|s| - 1] == c && IsHex(c);
      WithoutOne(a, init);
      assert a + init + [c] == a + b;
    }
  }

  lemma {:induction false} OneUnderscore(a: string, b: string)
    requires a != "" && b != "" && AllHex(a) && AllHex(b)
    ensures var s := a + "_" + b; PyDigits(s) && !Signed(s) && s[0] != '-' && BehindPrefix(s) == s
  {
    var s := a + "_" + b;
    assert IsHex(a[0]) && s[0] == a[0] && s[|a|] == '_' && IsHex(b[|b| - 1]) && s[|s| - 1] == b[|b| - 1];
    assert s[1] == if |a| > 1 then a[1] else '_';
    if |a| > 1 { assert IsHex(a[1]); }
    forall i | 0 <= i < |s|
      ensures PyDigitAt(s, i)
    {
      if i < |a| {
        assert IsHex(a[i]);
      } else if i > |a| {
        assert IsHex(b[i - |a| - 1]);
      } else {
        assert IsHex(a[|a| - 1]) && s[i - 1] == a[|a| - 1];
      }
    }
  }

  /** A single underscore between digits does not count. */
  lemma {:induction false} UnderscoreReads(a: string, b: string)
    requires a != "" && b != "" && AllHex(a) && AllHex(b)
    ensures PyInt(a + "_" + b) == Some(Value(a + b))
  {
    OneUnderscore(a, b);
    WithoutOne(a, b);
    PyIntIs(a + "_" + b, a + "_" + b, a + "_" + b, false);
  }

  /** An underscore in front, behind or twice, and any other character behind digits, is refused. */
  lemma {:induction false} PyIntFails(a: string, b: string, c: char)
    requires a != "" && b != "" && AllHex(a) && AllHex(b) && !IsHex(c)
    ensures PyInt("_" + b) == None && PyInt(a + [c]) == None && PyInt(a + "__" + b) == None && PyInt("") == None
  {
    FailsInFront(b);
    FailsBehind(a, c);
    FailsTwice(a, b);
  }

  lemma {:induction false} FailsInFront(b: string)
    ensures PyInt("_" + b) == None
  {
    var s := "_" + b;
    assert s[0] == '_' && !Signed(s) && BehindPrefix(s) == s;
  }

  lemma {:induction false} OddEnd(s: string)
    requires s != "" && !IsHex(s[|s| - 1])
    ensures !PyDigits(s)
  {
    var i := |s| - 1;
    assert PyDigits(s) ==> s[i] != '_' && PyDigitAt(s, i);
  }

  lemma {:induction false} FailsBehind(a: string, c: char)
    requires a != "" && AllHex(a) && !IsHex(c)
    ensures PyInt(a + [c]) == None
  {
    var s := a + [c];
    assert IsHex(a[0]) && s[0] == a[0] && s[|s| - 1] == c && !Signed(s);
    OddEnd(s);
    if |a| > 1 {
      assert IsHex(a[1]) && s[1] == a[1] && BehindPrefix(s) == s;
    } else if BehindPrefix(s) != s {
      assert BehindPrefix(s) == "";
    }
  }

  lemma {:induction false} FailsTwice(a: string, b: string)
    requires a != "" && AllHex(a)
    ensures PyInt(a + "__" + b) == None
  {
    var s := a + "__" + b;
    assert IsHex(a[0]) && s[0] == a[0] && s[|a|] == '_' && s[|a| + 1] == '_' && !Signed(s);
    if |a| > 1 { assert IsHex(a[1]) && s[1] == a[1]; } else { assert s[1] == '_'; }
    assert BehindPrefix(s) == s && !PyDigitAt(s, |a| + 1);
  }

  /** A word of digits is a byte exactly if its number is one; a negative one is not. */
  lemma {:induction false} PyByteReads(sign: string, prefix: string, digits: string, word: string)
    requires (sign == "" || sign == "+" || sign == "-") && digits != "" && AllHex(digits)
    requires prefix == "" || prefix == "0x" || prefix == "0X" || prefix == "0x_" || prefix == "0X_"
    requires word == sign + (prefix + digits)
    ensures PyByte(word) == if Value(digits) < 256 && (sign != "-" || Value(digits) == 0) then [Value(digits)] else []
  {
    PyIntReads(sign, prefix, digits, word);
  }

  lemma {:induction false} PyByteOfHex(v: Byte)
    ensures PyByte(UByte2(v)) == [v] && PyByte([Upper(v / 16)]) == [v / 16]
  {
    ValueOfByte2(v);
    ValueOfDigit(v / 16);
    PyIntOfDigits(UByte2(v));
    PyIntOfDigits([Upper(v / 16)]);
  }

  lemma {:induction false} PySnoc(ws: seq<string>, w: string)
    ensures PyBytes(ws + [w]) == PyBytes(ws) + PyByte(w)
  {
    assert (ws + [w])[..|ws|] == ws;
  }

  lemma {:induction false} PyBytesOfHex(bytes: seq<Byte>)
    ensures PyBytes(HexWords(bytes)) == bytes
  {
    if bytes != [] {
      var init, v := bytes[..|bytes| - 1], bytes[|bytes| - 1];
      PyBytesOfHex(init);
      PyByteOfHex(v);
      HexWordsSnoc(init, v);
      PySnoc(HexWords(init), UByte2(v));
      assert bytes == init + [v];
    }
  }

  lemma {:induction false} PyBytesOfTold(bytes: seq<Byte>, h: nat)
    requires h <= 3 * |bytes|
    ensures PyBytes(ToldWords(bytes, h)) == Told(bytes, h)
  {
    var front := bytes[..(h + 1) / 3];
    PyBytesOfHex(front);
    if h % 3 == 1 {
      PyByteOfHex(bytes[h / 3]);
      PySnoc(HexWords(front), [Upper(bytes[h / 3] / 16)]);
    } else {
      assert HexWords(front) + [] == HexWords(front) && front + [] == front;
    }
  }

  /** Only hex digits and blanks. */
  ghost predicate Plain(s: string) {
    forall i :: 0 <= i < |s| ==> IsHex(s[i]) || s[i] == ' '
  }

  lemma {:induction false} PlainByte(s: string, v: Byte)
    requires Plain(s)
    ensures Plain(s + (UByte2(v) + " "))
  {
    NibbleOfDigit(v / 16);
    NibbleOfDigit(v % 16);
  }

  lemma {:induction false} ColumnIsPlain(bytes: seq<Byte>)
    ensures Plain(HexColumn(bytes))
  {
    if bytes != [] {
      ColumnIsPlain(bytes[..|bytes| - 1]);
      PlainByte(HexColumn(bytes[..|bytes| - 1]), bytes[|bytes| - 1]);
    }
  }

  lemma {:induction false} NoColon(s: string)
    requires forall i :: 0 <= i < |s| ==> s[i] != ':'
    ensures IndexOf(s, ':') == |s| && Middle(s) == ""
  {
  }

  /** The middle of a line is what stands behind its first colon, up to a second one. */
  lemma {:induction false} MiddleBehind(a: string, b: string, line: string)
    requires AllHex(a) && line == a + ":" + b
    ensures Middle(line) == b[..IndexOf(b, ':')]
  {
    assert forall i :: 0 <= i < |a| ==> line[i] == a[i];
    assert line[|a|] == ':' && line[|a| + 1..] == b;
  }

  /** A line that is cut in front of its hex column. */
  lemma {:induction false} CutAddress(line: string, a: string, j: nat)
    requires AllHex(a) && a + ": " <= line && j <= |a| + 2
    ensures LineBytes(line[..j]) == []
  {
    var s := line[..j];
    assert forall i :: 0 <= i < j && i < |a| ==> s[i] == a[i];
    if j <= |a| {
      NoColon(s);
    } else {
      var b := s[|a| + 1..];
      assert s[|a|] == line[|a|] == ':' && s == a + ":" + b;
      MiddleBehind(a, b, s);
      assert b == "" || b == " " by {
        if j == |a| + 2 { assert s[|a| + 1] == line[|a| + 1] == ' '; }
      }
      NoColon(b);
      LeadingBlank("");
      assert " " + "" == " ";
    }
  }

  /** A line that is cut in its hex column tells the bytes up to there. */
  lemma {:induction false} CutMiddle(a: string, row: seq<Byte>, h: nat, s: string)
    requires AllHex(a) && h <= |HexColumn(row)| && s == a + ":" + (" " + HexColumn(row)[..h])
    ensures Middle(s) == " " + HexColumn(row)[..h]
  {
    var b := " " + HexColumn(row)[..h];
    MiddleBehind(a, b, s);
    ColumnIsPlain(row);
    NoColon(b);
    assert b[..|b|] == b;
  }

  lemma {:induction false} BytesOfMiddle(s: string, ws: seq<string>)
    requires Words(Middle(s)) == ws && |ws| <= 16
    ensures LineBytes(s) == PyBytes(ws)
  {
  }

  lemma {:induction false} CutColumn(a: string, row: seq<Byte>, h: nat, s: string)
    requires AllHex(a) && |row| == COLS && h <= 3 * COLS && |HexColumn(row)| == 3 * COLS
    requires s == a + ":" + (" " + HexColumn(row)[..h])
    ensures LineBytes(s) == Told(row, h)
  {
    CutMiddle(a, row, h, s);
    LeadingBlank(HexColumn(row)[..h]);
    CutColumnWords(row, h);
    BytesOfMiddle(s, ToldWords(row, h));
    PyBytesOfTold(row, h);
  }

  /** A line that is cut behind its hex column tells the whole row, whatever stands there,
      further colons included. */
  lemma {:induction false} CutBehind(a: string, row: seq<Byte>, t: string, s: string)
    requires AllHex(a) && |row| == COLS && t != "" && t[0] == ' '
    requires s == a + ":" + (" " + (RawText(row) + (" " + t)))
    ensures LineBytes(s) == row
  {
    var b := " " + (RawText(row) + (" " + t));
    MiddleBehind(a, b, s);
    HexColumnIsRaw(row);
    ColumnIsPlain(row);
    var t' := SecondColon(RawText(row), " " + t);
    LeadingBlank(RawText(row) + t');
    WordsAppend(RawText(row), t');
    WordsOfRaw(row);
    FirstSixteen(HexWords(row), Words(t'));
    PyBytesOfHex(row);
  }

  lemma {:induction false} SecondColon(raw: string, t: string) returns (t': string)
    requires Plain(raw + " ")
    requires t != "" && t[0] == ' '
    ensures var b := " " + (raw + t); b[..IndexOf(b, ':')] == " " + (raw + t')
    ensures t' != "" && t'[0] == ' '
  {
    var b := " " + (raw + t);
    var k := IndexOf(b, ':');
    assert forall i :: 0 <= i < |raw| ==> b[i + 1] == raw[i] && (raw + " ")[i] == raw[i];
    assert b[0] == ' ' && b[|raw| + 1] == t[0];
    assert k > |raw| + 1;
    t' := t[..k - |raw| - 1];
  }

  lemma {:induction false} FirstSixteen(ws: seq<string>, more: seq<string>)
    requires |ws| == 16
    ensures (ws + more)[..16] == ws && (|ws + more| <= 16 ==> ws + more == ws)
  {
  }

  lemma {:induction false} LineParts(m: Memory, addr: Word32, width: nat)
    ensures var a, row := Padded(addr, width), PeekRange(m, addr, COLS);
            && AllHex(a) && |HexColumn(row)| == 3 * COLS
            && DumpLine(m, addr, width) == a + ": " + HexColumn(row) + (" " + AsciiColumn(row))
            && |DumpLine(m, addr, width)| == |a| + 2 + 3 * COLS + 1 + COLS
  {
    ValueOfPadded(addr, width);
    HexColumnSize(PeekRange(m, addr, COLS));
  }

  /** A dump line, character by character: the address, a colon, two digits and a blank for each
      byte, and each byte again if it is printable. */
  lemma {:induction false} LineShows(m: Memory, addr: Word32, width: nat, k: nat, w: nat, line: string)
    requires k < 16 && w == |Padded(addr, width)| && line == DumpLine(m, addr, width)
    ensures |line| == w + 67 && line[..w + 2] == Padded(addr, width) + ": " && line[w + 50] == ' '
    ensures var v := Peek(m, addr + k);
            && line[w + 2 + 3 * k] == "0123456789ABCDEF"[v / 16] && line[w + 3 + 3 * k] == "0123456789ABCDEF"[v % 16]
            && line[w + 4 + 3 * k] == ' '
            && line[w + 51 + k] == if 32 <= v < 127 then v as char else '.'
  {
    var row := PeekRange(m, addr, COLS);
    var v := row[k];
    LineParts(m, addr, width);
    HexColumnAt(row, k);
    DigitTable(v / 16);
    DigitTable(v % 16);
    assert v == Peek(m, addr + k);
    LinePlaces(Padded(addr, width), HexColumn(row), AsciiColumn(row), line, w, 2 + 3 * k, k);
  }

  lemma {:induction false} LinePlaces(a: string, hex: string, ascii: string, line: string, w: nat, i: nat, k: nat)
    requires w == |a| && |hex| == 48 && |ascii| == 16 && line == a + ": " + hex + (" " + ascii)
    requires 2 <= i <= 47 && k < 16
    ensures line[..w + 2] == a + ": " && line[w + 50] == ' ' && line[w + 51 + k] == ascii[k]
    ensures line[w + i] == hex[i - 2] && line[w + i + 1] == hex[i - 1] && line[w + i + 2] == hex[i]
  {
    assert line[w + 2..w + 50] == hex && line[w + 51..] == ascii;
  }

  lemma {:induction false} CutInColumn(line: string, a: string, row: seq<Byte>, col: string, j: nat)
    requires AllHex(a) && |row| == COLS && |HexColumn(row)| == 3 * COLS
    requires line == a + ": " + HexColumn(row) + col && |a| + 2 < j <= |a| + 2 + 3 * COLS
    ensures LineBytes(line[..j]) == Told(row, j - |a| - 2)
  {
    var h := j - |a| - 2;
    assert line[..j] == a + ":" + (" " + HexColumn(row)[..h]);
    CutColumn(a, row, h, line[..j]);
  }

  lemma {:induction false} CutInAscii(line: string, a: string, row: seq<Byte>, col: string, j: nat)
    requires AllHex(a) && |row| == COLS && |HexColumn(row)| == 3 * COLS && col != "" && col[0] == ' '
    requires line == a + ": " + HexColumn(row) + col && |a| + 2 + 3 * COLS < j <= |line|
    ensures LineBytes(line[..j]) == row
  {
    var t := col[..j - |a| - 2 - 3 * COLS];
    HexColumnIsRaw(row);
    assert line[..j] == a + ": " + HexColumn(row) + t;
    RegroupLine(a, RawText(row), t);
    CutBehind(a, row, t, line[..j]);
  }

  lemma {:induction false} RegroupLine(a: string, raw: string, t: string)
    ensures a + ": " + (raw + " ") + t == a + ":" + (" " + (raw + (" " + t)))
  {
  }

  lemma {:induction false} ToldEnds(row: seq<Byte>)
    ensures Told(row, 0) == [] && Told(row, 3 * |row|) == row
  {
  }

  /** What a dump line tells that is cut anywhere. */
  lemma {:induction false} CutLineAt(line: string, a: string, row: seq<Byte>, col: string, j: nat)
    requires AllHex(a) && |row| == COLS && |HexColumn(row)| == 3 * COLS
    requires line == a + ": " + HexColumn(row) + (" " + col) && |col| == COLS && j <= |line|
    ensures LineBytes(line[..j]) == Told(row, HexShown(|a|, j))
  {
    ToldEnds(row);
    if j <= |a| + 2 {
      StartsWith(a + ": ", HexColumn(row), " " + col, line);
      CutAddress(line, a, j);
    } else if j <= |a| + 2 + 3 * COLS {
      CutInColumn(line, a, row, " " + col, j);
    } else {
      CutInAscii(line, a, row, " " + col, j);
    }
  }

  lemma {:induction false} CutLine(m: Memory, addr: Word32, width: nat, j: nat, line: string, w: nat)
    requires line == DumpLine(m, addr, width) && w == |Padded(addr, width)| && j <= |line|
    ensures LineBytes(line[..j]) == Told(PeekRange(m, addr, COLS), HexShown(w, j))
  {
    LineParts(m, addr, width);
    CutLineAt(line, Padded(addr, width), PeekRange(m, addr, COLS), AsciiColumn(PeekRange(m, addr, COLS)), j);
  }

  lemma {:induction false} StartsWith(x: string, y: string, z: string, s: string)
    requires s == x + y + z
    ensures x <= s
  {
  }

  // ---- Where ERROR can show ----

  /** An ERROR lies on one side of a line feed. */
  lemma {:induction false} ErrorInLines(a: string, b: string)
    ensures HasError(a + "\n" + b) <==> HasError(a) || HasError(b)
  {
    var s := a + "\n" + b;
    assert s[|a|] == '\n';
    assert forall i :: 0 <= i < |a| ==> s[i] == a[i];
    assert forall i :: 0 <= i < |b| ==> b[i] == s[|a| + 1 + i];
    if HasError(s) {
      var i :| 0 <= i <= |s| - 5 && ErrorAt(s, i);
      if i + 5 <= |a| {
        assert ErrorAt(a, i);
      } else {
        assert i > |a|;
        assert ErrorAt(b, i - |a| - 1);
      }
    }
    if HasError(a) {
      var i :| 0 <= i <= |a| - 5 && ErrorAt(a, i);
      assert ErrorAt(s, i);
    }
    if HasError(b) {
      var i :| 0 <= i <= |b| - 5 && ErrorAt(b, i);
      assert ErrorAt(s, |a| + 1 + i);
    }
  }

  /** A front without the letter R does not take part, if a blank follows it. */
  lemma {:induction false} ErrorBehind(x: string, t: string)
    requires forall i :: 0 <= i < |x| ==> x[i] != 'R'
    requires t != "" ==> Blank(t[0])
    ensures HasError(x + t) <==> HasError(t)
  {
    var s := x + t;
    assert forall i :: 0 <= i < |x| ==> s[i] == x[i];
    assert forall i :: 0 <= i < |t| ==> t[i] == s[|x| + i];
    if HasError(s) {
      var i :| 0 <= i <= |s| - 5 && ErrorAt(s, i);
      assert i >= |x|;
      assert ErrorAt(t, i - |x|);
    }
    if HasError(t) {
      var i :| 0 <= i <= |t| - 5 && ErrorAt(t, i);
      assert ErrorAt(s, |x| + i);
    }
  }

  /** Five consecutive bytes spell ERROR. */
  predicate SpellsAt(row: seq<Byte>, i: nat)
    requires i + 5 <= |row|
  {
    row[i] == 0x45 && row[i + 1] == 0x52 && row[i + 2] == 0x52 && row[i + 3] == 0x4F && row[i + 4] == 0x52
  }

  predicate Spells(row: seq<Byte>) {
    exists i :: 0 <= i <= |row| - 5 && SpellsAt(row, i)
  }

  lemma {:induction false} ShownLetter(b: Byte)
    ensures Shown(b) == 'E' <==> b == 0x45
    ensures Shown(b) == 'R' <==> b == 0x52
    ensures Shown(b) == 'O' <==> b == 0x4F
  {
  }

  lemma {:induction false} AsciiAt(row: seq<Byte>, i: nat)
    requires i < |row|
    ensures (" " + AsciiColumn(row))[i + 1] == Shown(row[i])
  {
    assert (" " + AsciiColumn(row))[i + 1] == AsciiColumn(row)[i];
  }

  lemma {:induction false} SpellsIsError(row: seq<Byte>, i: nat)
    requires i + 5 <= |row|
    ensures ErrorAt(" " + AsciiColumn(row), i + 1) <==> SpellsAt(row, i)
  {
    AsciiAt(row, i);
    AsciiAt(row, i + 1);
    AsciiAt(row, i + 2);
    AsciiAt(row, i + 3);
    AsciiAt(row, i + 4);
    ShownLetter(row[i]);
    ShownLetter(row[i + 1]);
    ShownLetter(row[i + 2]);
    ShownLetter(row[i + 3]);
    ShownLetter(row[i + 4]);
  }

  lemma {:induction false} ErrorInAscii(row: seq<Byte>)
    ensures HasError(" " + AsciiColumn(row)) <==> Spells(row)
  {
    var t := " " + AsciiColumn(row);
    if HasError(t) {
      var i :| 0 <= i <= |t| - 5 && ErrorAt(t, i);
      assert i >= 1;
      SpellsIsError(row, i - 1);
    }
    if Spells(row) {
      var i :| 0 <= i <= |row| - 5 && SpellsAt(row, i);
      SpellsIsError(row, i);
    }
  }

  lemma {:induction false} NoErrorInFront(x: string, s: string)
    requires (forall i :: 0 <= i < |x| ==> x[i] != 'R') && s <= x
    ensures !HasError(s)
  {
  }

  lemma {:induction false} FrontHasNoR(a: string, row: seq<Byte>, x: string)
    requires AllHex(a) && x == a + ": " + HexColumn(row)
    ensures forall i :: 0 <= i < |x| ==> x[i] != 'R'
  {
    ColumnIsPlain(row);
    var hex := HexColumn(row);
    assert forall i :: 0 <= i < |a| ==> x[i] == a[i];
    assert forall i :: |a| + 2 <= i < |x| ==> x[i] == hex[i - |a| - 2];
  }

  lemma {:induction false} AsciiTake(row: seq<Byte>, n: nat)
    requires n <= |row|
    ensures (" " + AsciiColumn(row))[..n + 1] == " " + AsciiColumn(row[..n])
  {
    assert AsciiColumn(row)[..n] == AsciiColumn(row[..n]);
  }

  /** A dump line that is cut anywhere shows ERROR exactly if the bytes shown spell it. */
  lemma {:induction false} CutLineError(m: Memory, addr: Word32, width: nat, j: nat)
    requires j <= |DumpLine(m, addr, width)|
    ensures var n := AsciiShown(|Padded(addr, width)|, j);
            HasError(DumpLine(m, addr, width)[..j]) <==> Spells(PeekRange(m, addr, COLS)[..n])
  {
    var line, a, row := DumpLine(m, addr, width), Padded(addr, width), PeekRange(m, addr, COLS);
    LineParts(m, addr, width);
    var x := a + ": " + HexColumn(row);
    FrontHasNoR(a, row, x);
    if j <= |x| {
      NoErrorInFront(x, line[..j]);
    } else {
      var n := j - |x| - 1;
      AsciiTake(row, n);
      assert line[..j] == x + (" " + AsciiColumn(row[..n]));
      ErrorBehind(x, " " + AsciiColumn(row[..n]));
      ErrorInAscii(row[..n]);
    }
  }

  // ---- A dump that is cut anywhere ----

  /** The bytes of row `k` of a dump. */
  function Row(m: Memory, start: Word32, k: nat): (row: seq<Byte>)
    ensures |row| == COLS
  {
    PeekRange(m, Wrap(start + COLS * k), COLS)
  }

  /** One of the first rows of the dump spells ERROR. */
  predicate SpellsError(m: Memory, start: Word32, rows: nat) {
    exists k :: 0 <= k < rows && Spells(Row(m, start, k))
  }

  lemma {:induction false} NoLineFeed(m: Memory, addr: Word32, width: nat)
    ensures '\n' !in DumpLine(m, addr, width)
  {
    var line, a, row := DumpLine(m, addr, width), Padded(addr, width), PeekRange(m, addr, COLS);
    LineParts(m, addr, width);
    ColumnIsPlain(row);
    var hex, ascii := HexColumn(row), AsciiColumn(row);
    assert forall i :: 0 <= i < |ascii| ==> ascii[i] == Shown(row[i]);
    assert '\n' !in hex && '\n' !in ascii && '\n' !in a;
  }

  lemma {:induction false} JoinedPeel(lines: seq<string>, rest: string)
    requires lines != []
    ensures var n := |lines| - 1;
            Joined(lines) + rest == Joined(lines[..n]) + (lines[n] + "\n" + rest)
  {
  }

  lemma {:induction false} LastLine(lines: seq<string>, more: seq<string>)
    requires lines != []
    ensures lines[..|lines| - 1] + ([lines[|lines| - 1]] + more) == lines + more
  {
  }

  /** The lines that a text without line feeds in its lines is split into. */
  lemma {:induction false} SplitJoined(lines: seq<string>, rest: string)
    requires forall k :: 0 <= k < |lines| ==> '\n' !in lines[k]
    ensures SplitLines(Joined(lines) + rest) == lines + SplitLines(rest)
    decreases |lines|
  {
    if lines == [] {
      assert Joined(lines) + rest == rest && [] + SplitLines(rest) == SplitLines(rest);
    } else {
      var init, line := lines[..|lines| - 1], lines[|lines| - 1];
      JoinedPeel(lines, rest);
      SplitJoined(init, line + "\n" + rest);
      SplitFirst(line, rest, line + "\n" + rest);
      LastLine(lines, SplitLines(rest));
    }
  }

  /** Some line shows ERROR. */
  predicate ErrorInSome(lines: seq<string>) {
    exists k :: 0 <= k < |lines| && HasError(lines[k])
  }

  lemma {:induction false} ErrorInSnoc(lines: seq<string>, last: string)
    ensures ErrorInSome(lines + [last]) <==> ErrorInSome(lines) || HasError(last)
  {
    var all := lines + [last];
    assert all[|lines|] == last;
    assert forall k :: 0 <= k < |lines| ==> all[k] == lines[k];
  }

  lemma {:induction false} ErrorInJoined(lines: seq<string>, rest: string)
    ensures HasError(Joined(lines) + rest) <==> ErrorInSome(lines) || HasError(rest)
    decreases |lines|
  {
    if lines == [] {
      assert Joined(lines) + rest == rest;
    } else {
      var n := |lines| - 1;
      ErrorInJoined(lines[..n], lines[n] + "\n" + rest);
      JoinedPeel(lines, rest);
      ErrorInLines(lines[n], rest);
      assert lines[..n] + [lines[n]] == lines;
      ErrorInSnoc(lines[..n], lines[n]);
    }
  }

  /** A whole dump line gives its row, and shows ERROR exactly when the row spells it. */
  ghost predicate Tells(line: string, row: seq<Byte>) {
    '\n' !in line && LineBytes(line) == row && (HasError(line) <==> Spells(row))
  }

  ghost predicate TellRows(lines: seq<string>, m: Memory, start: Word32) {
    forall k :: 0 <= k < |lines| ==> Tells(lines[k], Row(m, start, k))
  }

  lemma {:induction false} WholeLine(m: Memory, addr: Word32, width: nat)
    ensures Tells(DumpLine(m, addr, width), PeekRange(m, addr, COLS))
  {
    var line, row := DumpLine(m, addr, width), PeekRange(m, addr, COLS);
    LineParts(m, addr, width);
    NoLineFeed(m, addr, width);
    CutLine(m, addr, width, |line|, line, |Padded(addr, width)|);
    CutLineError(m, addr, width, |line|);
    ToldEnds(row);
    assert line[..|line|] == line && row[..COLS] == row;
  }

  lemma {:induction false} LineOfDump(m: Memory, start: Word32, width: nat, rows: nat, k: nat)
    requires k < rows
    ensures DumpLines(m, start, width, rows)[k] == DumpLine(m, Wrap(start + COLS * k), width)
  {
  }

  lemma {:induction false} FirstLines(m: Memory, start: Word32, width: nat, rows: nat, k: nat)
    requires k <= rows
    ensures TellRows(DumpLines(m, start, width, rows)[..k], m, start)
  {
    var lines := DumpLines(m, start, width, rows)[..k];
    forall i | 0 <= i < k
      ensures Tells(lines[i], Row(m, start, i))
    {
      LineOfDump(m, start, width, rows, i);
      WholeLine(m, Wrap(start + COLS * i), width);
    }
  }

  lemma {:induction false} RowsStep(m: Memory, start: Word32, n: nat)
    requires BusSize(|m|)
    ensures PeekRange(m, start, COLS * n) + Row(m, start, n) == PeekRange(m, start, COLS * (n + 1))
  {
    RangeAppend(m, start, COLS * n, COLS);
  }

  lemma {:induction false} RowParses(lines: seq<string>, line: string, m: Memory, start: Word32, n: nat)
    requires BusSize(|m|) && ParseDump(lines) == PeekRange(m, start, COLS * n) && Tells(line, Row(m, start, n))
    ensures ParseDump(lines + [line]) == PeekRange(m, start, COLS * (n + 1))
  {
    ParseSnoc(lines, line);
    RowsStep(m, start, n);
  }

  lemma {:induction false} TellFirst(lines: seq<string>, m: Memory, start: Word32, n: nat)
    requires TellRows(lines, m, start) && n <= |lines|
    ensures TellRows(lines[..n], m, start)
  {
    var front := lines[..n];
    forall k | 0 <= k < |front|
      ensures Tells(front[k], Row(m, start, k))
    {
      assert front[k] == lines[k];
    }
  }

  lemma {:induction false} FrontAndLast(lines: seq<string>, n: nat)
    requires n + 1 == |lines|
    ensures lines[..n] + [lines[n]] == lines
  {
  }

  lemma {:induction false} RowsParse(lines: seq<string>, m: Memory, start: Word32)
    requires BusSize(|m|) && TellRows(lines, m, start)
    ensures ParseDump(lines) == PeekRange(m, start, COLS * |lines|)
  {
    if lines != [] {
      var n := |lines| - 1;
      FrontAndLast(lines, n);
      TellFirst(lines, m, start, n);
      RowsParse(lines[..n], m, start);
      assert Tells(lines[n], Row(m, start, n));
      RowParses(lines[..n], lines[n], m, start, n);
    }
  }

  lemma {:induction false} ErrorsAreSpelled(lines: seq<string>, m: Memory, start: Word32)
    requires TellRows(lines, m, start)
    ensures ErrorInSome(lines) <==> SpellsError(m, start, |lines|)
  {
    forall k | 0 <= k < |lines|
      ensures HasError(lines[k]) <==> Spells(Row(m, start, k))
    {
      assert Tells(lines[k], Row(m, start, k));
    }
  }

  lemma {:induction false} NoFeeds(lines: seq<string>, m: Memory, start: Word32)
    requires TellRows(lines, m, start)
    ensures forall k :: 0 <= k < |lines| ==> '\n' !in lines[k]
  {
    forall k | 0 <= k < |lines|
      ensures '\n' !in lines[k]
    {
      assert Tells(lines[k], Row(m, start, k));
    }
  }

  /** Whole rows and the start of one more line. */
  lemma {:induction false} RowsAndRest(lines: seq<string>, q: string, m: Memory, start: Word32)
    requires BusSize(|m|) && TellRows(lines, m, start) && '\n' !in q
    ensures HasError(Joined(lines) + q) <==> SpellsError(m, start, |lines|) || HasError(q)
    ensures ParseDump(SplitLines(Joined(lines) + q)) == PeekRange(m, start, COLS * |lines|) + LineBytes(q)
  {
    NoFeeds(lines, m, start);
    SplitJoined(lines, q);
    SplitNone(q);
    ParseSnoc(lines, q);
    RowsParse(lines, m, start);
    ErrorInJoined(lines, q);
    ErrorsAreSpelled(lines, m, start);
  }

  lemma {:induction false} TextParses(lines: seq<string>, q: string, m: Memory, start: Word32, told: seq<Byte>,
                                      err: bool)
    requires BusSize(|m|) && TellRows(lines, m, start) && '\n' !in q && LineBytes(q) == told && HasError(q) == err
    ensures ParseResponse(Joined(lines) + q)
            == if SpellsError(m, start, |lines|) || err then None else Some(PeekRange(m, start, COLS * |lines|) + told)
  {
    RowsAndRest(lines, q, m, start);
  }

  /** The facts about a dump that breaks off in line `k`. */
  lemma {:induction false} BrokenLine(m: Memory, start: Word32, width: nat, rows: nat, k: nat, j: nat, line: string,
                                      q: string)
    requires k < rows && line == DumpLines(m, start, width, rows)[k] && j <= |line| && q == line[..j]
    ensures '\n' !in q
    ensures var w := |Padded(Wrap(start + COLS * k), width)|;
            && LineBytes(q) == Told(Row(m, start, k), HexShown(w, j))
            && (HasError(q) <==> Spells(Row(m, start, k)[..AsciiShown(w, j)]))
  {
    var addr := Wrap(start + COLS * k);
    LineOfDump(m, start, width, rows, k);
    NoLineFeed(m, addr, width);
    CutLine(m, addr, width, j, line, |Padded(addr, width)|);
    CutLineError(m, addr, width, j);
  }

  /** A dump that breaks off in line `k`: a ProtocolError exactly if the bytes shown spell
      ERROR, and otherwise the bytes of the whole lines and those the broken line tells. */
  lemma {:induction false} CutDumpParses(m: Memory, start: Word32, width: nat, rows: nat, k: nat, j: nat,
                                         lines: seq<string>, w: nat)
    requires BusSize(|m|) && lines == DumpLines(m, start, width, rows)
    requires k < rows && j <= |lines[k]| && w == |Padded(Wrap(start + COLS * k), width)|
    ensures ParseResponse(Joined(lines[..k]) + lines[k][..j])
            == if SpellsError(m, start, k) || Spells(Row(m, start, k)[..AsciiShown(w, j)]) then None
               else Some(PeekRange(m, start, COLS * k) + Told(Row(m, start, k), HexShown(w, j)))
  {
    var q := lines[k][..j];
    BrokenLine(m, start, width, rows, k, j, lines[k], q);
    FirstLines(m, start, width, rows, k);
    TextParses(lines[..k], q, m, start, Told(Row(m, start, k), HexShown(w, j)), HasError(q));
  }

  lemma {:induction false} EmptyLine()
    ensures LineBytes("") == [] && !HasError("")
  {
    NoColon("");
  }

  lemma {:induction false} AllRows(lines: seq<string>, m: Memory, start: Word32, text: string)
    requires BusSize(|m|) && TellRows(lines, m, start) && text == Joined(lines)
    ensures ParseResponse(text) == if SpellsError(m, start, |lines|) then None
            else Some(PeekRange(m, start, COLS * |lines|))
  {
    assert text + "" == text;
    EmptyLine();
    TextParses(lines, "", m, start, [], false);
    assert PeekRange(m, start, COLS * |lines|) + [] == PeekRange(m, start, COLS * |lines|);
  }

  lemma {:induction false} WholeDump(m: Memory, start: Word32, width: nat, rows: nat, lines: seq<string>)
    requires lines == DumpLines(m, start, width, rows)
    ensures TellRows(lines, m, start)
  {
    FirstLines(m, start, width, rows, rows);
    assert lines[..rows] == lines;
  }

  /** A whole dump, with or without the line feed the monitor adds: a ProtocolError exactly if
      a row spells ERROR, and otherwise the true bytes, whatever the ASCII column holds. */
  lemma {:induction false} DumpParses(m: Memory, start: Word32, width: nat, rows: nat, text: string)
    requires BusSize(|m|) && text == Joined(DumpLines(m, start, width, rows))
    ensures ParseResponse(text) == if SpellsError(m, start, rows) then None
            else Some(PeekRange(m, start, COLS * rows))
    ensures ParseResponse(text + "\n") == ParseResponse(text)
  {
    var lines := DumpLines(m, start, width, rows);
    WholeDump(m, start, width, rows, lines);
    AllRows(lines, m, start, text);
    ParseEnded(text);
  }

  /** Where a text of lines breaks off. */
  function BreakIn(lines: seq<string>, c: nat): (at: (nat, nat))
    requires c < |Joined(lines)|
    ensures at.0 < |lines| && at.1 <= |lines[at.0]|
  {
    var n := |lines| - 1;
    var init := lines[..n];
    if c < |Joined(init)| then BreakIn(init, c) else (n, c - |Joined(init)|)
  }

  lemma {:induction false} BreaksIn(lines: seq<string>, c: nat)
    requires c < |Joined(lines)|
    ensures var (k, j) := BreakIn(lines, c); Joined(lines)[..c] == Joined(lines[..k]) + lines[k][..j]
  {
    var n := |lines| - 1;
    var init := lines[..n];
    if c < |Joined(init)| {
      BreaksIn(init, c);
      assert init[..BreakIn(init, c).0] == lines[..BreakIn(init, c).0] && Joined(lines)[..c] == Joined(init)[..c];
    }
  }
}
