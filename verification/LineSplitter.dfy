/** How the two text monitors cut a client's byte stream into commands, and run them. */
module LineSplitter {

  predicate Ends(c: char) {
    c == '\n' || c == '\r'
  }

  predicate Printable(c: char) {
    ' ' <= c <= '~'
  }

  // ---- What the commands are ----

  function Printables(s: string): (t: string)
    ensures forall i :: 0 <= i < |t| ==> Printable(t[i])
  {
    if s == "" then "" else (if Printable(s[0]) then [s[0]] else "") + Printables(s[1..])
  }

  /** Index of the first line end, or the length of the text. */
  function FirstEnd(s: string): (i: nat)
    ensures i <= |s| && (i < |s| ==> Ends(s[i]))
    ensures forall j :: 0 <= j < i ==> !Ends(s[j])
  {
    if s == "" || Ends(s[0]) then 0 else 1 + FirstEnd(s[1..])
  }

  function NonEmpty(line: string): seq<string> {
    if line == "" then [] else [line]
  }

  /** The commands of a byte stream: the printable characters of every ended line, where there are any. */
  function Commands(s: string): seq<string>
    decreases |s|
  {
    var i := FirstEnd(s);
    if i == |s| then [] else NonEmpty(Printables(s[..i])) + Commands(s[i + 1..])
  }

  function Flatten(chunks: seq<string>): string {
    if chunks == [] then "" else chunks[0] + Flatten(chunks[1..])
  }

  // ---- Byte by byte ----

  /** The commands still to come, with `buffer` collected so far. */
  function CommandsFrom(buffer: string, rest: string): seq<string>
    decreases |rest|
  {
    if rest == "" then []
    else if Ends(rest[0]) then NonEmpty(buffer) + CommandsFrom("", rest[1..])
    else if Printable(rest[0]) then CommandsFrom(buffer + [rest[0]], rest[1..])
    else CommandsFrom(buffer, rest[1..])
  }

  lemma {:induction false} BufferGrows(buffer: string, rest: string)
    ensures var i := FirstEnd(rest);
            CommandsFrom(buffer, rest) ==
            if i == |rest| then [] else NonEmpty(buffer + Printables(rest[..i])) + CommandsFrom("", rest[i + 1..])
    decreases |rest|
  {
    if rest != "" && Ends(rest[0]) {
      assert rest[..0] == "" && buffer + "" == buffer;
    } else if rest != "" {
      var i := FirstEnd(rest);
      var c, more := rest[0], rest[1..];
      assert rest[..i] == [c] + more[..i - 1] && (i < |rest| ==> rest[i + 1..] == more[i..]);
      if Printable(c) {
        BufferGrows(buffer + [c], more);
        assert buffer + [c] + Printables(more[..i - 1]) == buffer + ([c] + Printables(more[..i - 1]));
      } else {
        BufferGrows(buffer, more);
        assert "" + Printables(more[..i - 1]) == Printables(more[..i - 1]);
      }
    }
  }

  lemma {:induction false} CommandsStep(s: string, i: nat, line: string, rest: string)
    requires i == FirstEnd(s) && i < |s| && line == s[..i] && rest == s[i + 1..]
    ensures Commands(s) == NonEmpty(Printables(line)) + Commands(rest)
  {
  }

  /** The byte-by-byte splitter yields the commands. */
  lemma {:induction false} SplitterIsRight(s: string)
    ensures CommandsFrom("", s) == Commands(s)
    decreases |s|
  {
    BufferGrows("", s);
    var i := FirstEnd(s);
    if i < |s| {
      SplitterIsRight(s[i + 1..]);
      CommandsStep(s, i, s[..i], s[i + 1..]);
      assert "" + Printables(s[..i]) == Printables(s[..i]);
    }
  }

  lemma {:induction false} Collect(buffer: string, cmd: string)
    requires buffer + cmd != "" && forall i :: 0 <= i < |cmd| ==> Printable(cmd[i])
    ensures CommandsFrom(buffer, cmd + "\n") == [buffer + cmd]
    decreases |cmd|
  {
    var rest := cmd + "\n";
    if cmd == "" {
      assert rest[0] == '\n' && rest[1..] == "" && buffer + cmd == buffer;
      assert CommandsFrom("", "") == [] && [buffer] + [] == [buffer];
    } else {
      assert rest[0] == cmd[0] && rest[1..] == cmd[1..] + "\n";
      assert buffer + [cmd[0]] + cmd[1..] == buffer + cmd;
      Collect(buffer + [cmd[0]], cmd[1..]);
    }
  }

  /** A printable command and a line feed make exactly that command. */
  lemma {:induction false} OneCommand(cmd: string)
    requires cmd != "" && forall i :: 0 <= i < |cmd| ==> Printable(cmd[i])
    ensures Commands(cmd + "\n") == [cmd]
  {
    SplitterIsRight(cmd + "\n");
    assert "" + cmd == cmd;
    Collect("", cmd);
  }

  /** A line of characters 32 to 126, ended by a line feed or a carriage return, is a command;
      an empty one is none. */
  lemma {:induction false} FirstCommand(line: string, end: char, rest: string, s: string)
    requires (forall i :: 0 <= i < |line| ==> 32 <= line[i] as int < 127) && (end as int == 10 || end as int == 13)
    requires s == line + [end] + rest
    ensures Commands(s) == (if line == "" then [] else [line]) + Commands(rest)
  {
    assert s[|line|] == end && forall i :: 0 <= i < |line| ==> s[i] == line[i];
    assert FirstEnd(s) == |line| && s[..|line|] == line && s[|line| + 1..] == rest;
    AllPrintable(line);
  }

  lemma {:induction false} AllPrintable(line: string)
    requires forall i :: 0 <= i < |line| ==> Printable(line[i])
    ensures Printables(line) == line
  {
    if line != "" { AllPrintable(line[1..]); }
  }

  /** What is not ended is no command yet. */
  lemma {:induction false} NoCommand(s: string)
    requires forall i :: 0 <= i < |s| ==> s[i] as int != 10 && s[i] as int != 13
    ensures Commands(s) == []
  {
  }

  lemma {:induction false} SkippedFrom(buffer: string, a: string, c: char, b: string)
    requires (c as int < 32 || c as int > 126) && c as int != 10 && c as int != 13
    ensures CommandsFrom(buffer, a + ([c] + b)) == CommandsFrom(buffer, a + b)
    decreases |a|
  {
    if a == "" {
      assert a + ([c] + b) == [c] + b && a + b == b && ([c] + b)[1..] == b;
    } else {
      assert (a + ([c] + b))[1..] == a[1..] + ([c] + b) && (a + b)[1..] == a[1..] + b;
      SkippedFrom("", a[1..], c, b);
      SkippedFrom(buffer, a[1..], c, b);
      SkippedFrom(buffer + [a[0]], a[1..], c, b);
    }
  }

  /** All other characters are as if they had not been sent. */
  lemma {:induction false} OthersAreSkipped(a: string, c: char, b: string)
    requires (c as int < 32 || c as int > 126) && c as int != 10 && c as int != 13
    ensures Commands(a + ([c] + b)) == Commands(a + b)
  {
    SplitterIsRight(a + ([c] + b));
    SplitterIsRight(a + b);
    SkippedFrom("", a, c, b);
  }

  /** The first byte of what a client has left to read, and what follows it. */
  lemma {:induction false} FlattenAt(chunks: seq<string>, k: nat, i: nat)
    requires k < |chunks| && i < |chunks[k]|
    ensures var rest := chunks[k][i..] + Flatten(chunks[k + 1..]);
            rest != "" && rest[0] == chunks[k][i] && rest[1..] == chunks[k][i + 1..] + Flatten(chunks[k + 1..])
  {
  }

  lemma {:induction false} FlattenNext(chunks: seq<string>, k: nat)
    requires k < |chunks|
    ensures chunks[k][0..] + Flatten(chunks[k + 1..]) == Flatten(chunks[k..])
    ensures chunks[k][|chunks[k]|..] + Flatten(chunks[k + 1..]) == Flatten(chunks[k + 1..])
  {
    assert chunks[k..][0] == chunks[k] && chunks[k..][1..] == chunks[k + 1..];
  }

  // ---- The serial monitor ----

  /** Runs commands one after the other, after what was `sent` before; every response goes
      out with a line feed. */
  function RunAll<S>(exec: (S, string) -> (S, string), cmds: seq<string>, s: S, sent: seq<string>): (S, seq<string>)
    decreases |cmds|
  {
    if cmds == [] then (s, sent)
    else
      var (s', response) := exec(s, cmds[0]);
      RunAll(exec, cmds[1..], s', sent + [response + "\n"])
  }

  /** `SerialMonitorServer::handleClient`, over the texts the reads return: the final state
      and the responses depend on the concatenated bytes alone. */
  method SerialHandleClient<S>(exec: (S, string) -> (S, string), chunks: seq<string>, s0: S)
    returns (s: S, sent: seq<string>)
    ensures (s, sent) == RunAll(exec, Commands(Flatten(chunks)), s0, [])
  {
    var buffer := "";
    s, sent := s0, [];
    ghost var o := RunAll(exec, Commands(Flatten(chunks)), s0, []);
    ghost var rest := Flatten(chunks);
    SplitterIsRight(rest);
    for k := 0 to |chunks|
      invariant rest == Flatten(chunks[k..])
      invariant o == RunAll(exec, CommandsFrom(buffer, rest), s, sent)
    {
      FlattenNext(chunks, k);
      for i := 0 to |chunks[k]|
        invariant rest == chunks[k][i..] + Flatten(chunks[k + 1..])
        invariant o == RunAll(exec, CommandsFrom(buffer, rest), s, sent)
      {
        FlattenAt(chunks, k, i);
        var c := chunks[k][i];
        if Ends(c) {
          if buffer != "" {
            var r := exec(s, buffer);
            NextCommand(exec, buffer, CommandsFrom("", rest[1..]), s, sent);
            s, sent := r.0, sent + [r.1 + "\n"];
            buffer := "";
          } else {
            assert [] + CommandsFrom("", rest[1..]) == CommandsFrom("", rest[1..]);
          }
        } else if Printable(c) {
          buffer := buffer + [c];
        }
        rest := rest[1..];
      }
    }
  }

  lemma {:induction false} NextCommand<S>(exec: (S, string) -> (S, string), cmd: string, more: seq<string>, s: S,
                                          sent: seq<string>)
    ensures var r := exec(s, cmd);
            RunAll(exec, [cmd] + more, s, sent) == RunAll(exec, more, r.0, sent + [r.1 + "\n"])
  {
    assert ([cmd] + more)[1..] == more;
  }

  // ---- The VICE monitor ----

  /** `writeLine`: ends the text with a line feed unless it has one. */
  function Line(text: string): string {
    if text != "" && text[|text| - 1] != '\n' then text + "\n" else text
  }

  /** Runs commands up to the first one answered with EXIT; empty responses are not sent. */
  function RunUntilExit<S>(exec: (S, string) -> (S, string), cmds: seq<string>, s: S, sent: seq<string>)
    : (S, seq<string>)
    decreases |cmds|
  {
    if cmds == [] then (s, sent)
    else
      var (s', response) := exec(s, cmds[0]);
      if response == "EXIT" then (s', sent)
      else RunUntilExit(exec, cmds[1..], s', if response == "" then sent else sent + [Line(response)])
  }

  const BANNER := "VICE emulation disabled (mmemu VICE protocol adapter)" + "\n"

  /** `ViceMonitorServer::handleClient` */
  method ViceHandleClient<S>(exec: (S, string) -> (S, string), chunks: seq<string>, s0: S)
    returns (s: S, sent: seq<string>)
    ensures (s, sent) == RunUntilExit(exec, Commands(Flatten(chunks)), s0, [Line(BANNER)])
  {
    var buffer := "";
    s, sent := s0, [Line(BANNER)];
    ghost var o := RunUntilExit(exec, Commands(Flatten(chunks)), s0, sent);
    ghost var rest := Flatten(chunks);
    SplitterIsRight(rest);
    for k := 0 to |chunks|
      invariant rest == Flatten(chunks[k..])
      invariant o == RunUntilExit(exec, CommandsFrom(buffer, rest), s, sent)
    {
      FlattenNext(chunks, k);
      for i := 0 to |chunks[k]|
        invariant rest == chunks[k][i..] + Flatten(chunks[k + 1..])
        invariant o == RunUntilExit(exec, CommandsFrom(buffer, rest), s, sent)
      {
        FlattenAt(chunks, k, i);
        var c := chunks[k][i];
        if Ends(c) {
          if buffer != "" {
            var r := exec(s, buffer);
            NextUntilExit(exec, buffer, CommandsFrom("", rest[1..]), s, sent);
            s := r.0;
            if r.1 == "EXIT" { return; }
            if r.1 != "" { sent := sent + [Line(r.1)]; }
            buffer := "";
          } else {
            assert [] + CommandsFrom("", rest[1..]) == CommandsFrom("", rest[1..]);
          }
        } else if Printable(c) {
          buffer := buffer + [c];
        }
        rest := rest[1..];
      }
    }
  }

  lemma {:induction false} NextUntilExit<S>(exec: (S, string) -> (S, string), cmd: string, more: seq<string>, s: S,
                                            sent: seq<string>)
    ensures var r := exec(s, cmd);
            RunUntilExit(exec, [cmd] + more, s, sent) ==
            if r.1 == "EXIT" then (r.0, sent)
            else RunUntilExit(exec, more, r.0, if r.1 == "" then sent else sent + [Line(r.1)])
  {
    assert ([cmd] + more)[1..] == more;
  }

  /** Whatever a client sends, the first line it receives is the banner. */
  lemma {:induction false} BannerFirst<S>(exec: (S, string) -> (S, string), cmds: seq<string>, s: S, sent: seq<string>)
    requires sent != [] && sent[0] == Line(BANNER)
    ensures var o := RunUntilExit(exec, cmds, s, sent).1;
            o != [] && o[0] == "VICE emulation disabled (mmemu VICE protocol adapter)" + "\n"
    decreases |cmds|
  {
    if cmds == [] {
      BannerText();
    } else {
      var (s', response) := exec(s, cmds[0]);
      if response == "EXIT" {
        BannerText();
      } else {
        BannerFirst(exec, cmds[1..], s', if response == "" then sent else sent + [Line(response)]);
      }
    }
  }

  lemma {:induction false} BannerText()
    ensures Line(BANNER) == "VICE emulation disabled (mmemu VICE protocol adapter)" + "\n"
  {
  }

  /** A response is sent as a line: with a line feed behind it, unless it ends in one or is empty. */
  lemma {:induction false} LineIs(text: string)
    ensures text == "" ==> Line(text) == ""
    ensures Line(text + "\n") == text + "\n"
    ensures text != "" && text[|text| - 1] as int != 10 ==> Line(text) == text + "\n"
  {
  }

  /** The session is the plain run of the commands up to and including the first exit. */
  ghost function UpToExit<S>(exec: (S, string) -> (S, string), cmds: seq<string>, s: S): (r: seq<string>)
    ensures r <= cmds
    decreases |cmds|
  {
    if cmds == [] then []
    else
      var (s', response) := exec(s, cmds[0]);
      if response == "EXIT" then [cmds[0]] else [cmds[0]] + UpToExit(exec, cmds[1..], s')
  }

  lemma {:induction false} LaterCommandsDoNotMatter<S>(exec: (S, string) -> (S, string), cmds: seq<string>, s: S,
                                                       sent: seq<string>)
    ensures RunUntilExit(exec, cmds, s, sent) == RunUntilExit(exec, UpToExit(exec, cmds, s), s, sent)
    decreases |cmds|
  {
    if cmds != [] {
      var (s', response) := exec(s, cmds[0]);
      var head := UpToExit(exec, cmds, s);
      if response != "EXIT" {
        var more := if response == "" then sent else sent + [Line(response)];
        LaterCommandsDoNotMatter(exec, cmds[1..], s', more);
        assert head[1..] == UpToExit(exec, cmds[1..], s');
      }
    }
  }
}
