/** The extension's record of test runs: status, change count, and pruning of old runs. */
module TestHistory {

  datatype Status = Pass | Fail | Skip

  /** A run; its time is in milliseconds. */
  datatype TestRun = TestRun(timestamp: int, gitHash: string, status: Status)

  datatype History = History(file: string, runs: seq<TestRun>, lastStatus: Status, lastGitHash: string,
    statusChanges: nat)

  type Tests = map<string, History>

  const KEPT := 10

  /** `hasStatusChanged` */
  predicate StatusChanged(tests: Tests, name: string, status: Status) {
    name !in tests || tests[name].lastStatus != status
  }

  /** `recordTestRun`, without saving. */
  function Recorded(tests: Tests, name: string, file: string, run: TestRun): Tests {
    var h := if name in tests then tests[name] else History(file, [], run.status, run.gitHash, 0);
    var changes := if StatusChanged(tests, name, run.status) then h.statusChanges + 1 else h.statusChanges;
    tests[name := History(h.file, h.runs + [run], run.status, run.gitHash, changes)]
  }

  /** `filter(run => new Date(run.timestamp) > cutoff)` */
  function Newer(runs: seq<TestRun>, cutoff: int): (r: seq<TestRun>)
    ensures |r| <= |runs|
  {
    if runs == [] then []
    else
      var n := |runs| - 1;
      Newer(runs[..n], cutoff) + if runs[n].timestamp > cutoff then [runs[n]] else []
  }

  /** The pruning of one history. */
  function Pruned(h: History, cutoff: int): History {
    if |h.runs| <= KEPT then h
    else
      var newer := Newer(h.runs, cutoff);
      h.(runs := if |newer| < KEPT then h.runs[|h.runs| - KEPT..] else newer)
  }

  /** `cleanupOldData`, without saving. */
  function Cleaned(tests: Tests, cutoff: int): Tests {
    map name | name in tests :: Pruned(tests[name], cutoff)
  }

  // ---- Runs of the extension ----

  datatype Event =
    | Record(name: string, file: string, run: TestRun)
    | Cleanup(cutoff: int)
    | ClearTest(name: string)
    | ClearAll

  function Step(before: Tests, event: Event): Tests {
    match event
    case Record(name, file, run) => Recorded(before, name, file, run)
    case Cleanup(cutoff) => Cleaned(before, cutoff)
    case ClearTest(name) => before - {name}
    case ClearAll => map[]
  }

  function After(events: seq<Event>): Tests {
    if events == [] then map[] else Step(After(events[..|events| - 1]), events[|events| - 1])
  }

  /** All runs of a test since it was last cleared, pruned or not. */
  function AllRuns(events: seq<Event>, name: string): seq<TestRun> {
    if events == [] then []
    else
      var before := AllRuns(events[..|events| - 1], name);
      match events[|events| - 1]
      case Record(n, _, run) => if n == name then before + [run] else before
      case Cleanup(_) => before
      case ClearTest(n) => if n == name then [] else before
      case ClearAll => []
  }

  /** Adjacent runs with different statuses. */
  function Flips(runs: seq<TestRun>): (k: nat) {
    if |runs| < 2 then 0
    else
      var n := |runs| - 1;
      Flips(runs[..n]) + if runs[n - 1].status != runs[n].status then 1 else 0
  }

  lemma {:induction false} FlipsSnoc(runs: seq<TestRun>, run: TestRun)
    ensures Flips(runs + [run]) == Flips(runs) + if runs != [] && runs[|runs| - 1].status != run.status then 1 else 0
  {
    assert (runs + [run])[..|runs|] == runs;
  }

  /** The statuses, hash and change count that belong to all recorded runs of a test. */
  predicate Tracks(tests: Tests, name: string, runs: seq<TestRun>) {
    && (name in tests <==> runs != [])
    && (name in tests ==>
          && tests[name].lastStatus == runs[|runs| - 1].status && tests[name].lastGitHash == runs[|runs| - 1].gitHash
          && tests[name].statusChanges == 1 + Flips(runs))
  }

  lemma {:induction false} TracksRecorded(tests: Tests, name: string, file: string, run: TestRun, runs: seq<TestRun>)
    requires Tracks(tests, name, runs)
    ensures Tracks(Recorded(tests, name, file, run), name, runs + [run])
  {
    FlipsSnoc(runs, run);
  }

  /** In every run of the extension, a test is known exactly if it was recorded since it was
      last cleared; its last status and hash are those of the last recorded run, and its
      change count is one more than the number of status differences among all recorded runs,
      whatever has been pruned. */
  lemma {:induction false} HistoryTracksRuns(events: seq<Event>, name: string)
    ensures Tracks(After(events), name, AllRuns(events, name))
  {
    if events != [] {
      var init := events[..|events| - 1];
      HistoryTracksRuns(init, name);
      match events[|events| - 1]
      case Record(n, file, run) =>
        if n == name { TracksRecorded(After(init), name, file, run, AllRuns(init, name)); }
      case _ =>
    }
  }

  // ---- Pruning ----

  predicate Ordered(runs: seq<TestRun>) {
    forall i, j :: 0 <= i < j < |runs| ==> runs[i].timestamp <= runs[j].timestamp
  }

  /** `r` is the end of `runs`. */
  predicate Suffix(r: seq<TestRun>, runs: seq<TestRun>) {
    |r| <= |runs| && runs[|runs| - |r|..] == r
  }

  /** `r` is the end of `runs`, and holds just the runs newer than the limit. */
  ghost predicate NewerEnd(r: seq<TestRun>, runs: seq<TestRun>, cutoff: int) {
    && Suffix(r, runs)
    && forall i :: 0 <= i < |runs| ==> (runs[i].timestamp > cutoff <==> i >= |runs| - |r|)
  }

  lemma {:induction false} NewerEndSnoc(r: seq<TestRun>, runs: seq<TestRun>, run: TestRun, cutoff: int)
    requires NewerEnd(r, runs, cutoff) && run.timestamp > cutoff
    ensures NewerEnd(r + [run], runs + [run], cutoff)
  {
    assert (runs + [run])[|runs| - |r|..] == runs[|runs| - |r|..] + [run];
  }

  /** Of ordered runs, the newer ones are the last ones. */
  lemma {:induction false} NewerIsSuffix(runs: seq<TestRun>, cutoff: int)
    requires Ordered(runs)
    ensures NewerEnd(Newer(runs, cutoff), runs, cutoff)
  {
    if runs != [] {
      var n := |runs| - 1;
      if runs[n].timestamp <= cutoff {
        NoneNewer(runs, cutoff);
      } else {
        NewerIsSuffix(runs[..n], cutoff);
        NewerEndSnoc(Newer(runs[..n], cutoff), runs[..n], runs[n], cutoff);
        assert runs[..n] + [runs[n]] == runs;
      }
    }
  }

  lemma {:induction false} NoneNewer(runs: seq<TestRun>, cutoff: int)
    requires forall i :: 0 <= i < |runs| ==> runs[i].timestamp <= cutoff
    ensures Newer(runs, cutoff) == []
  {
    if runs != [] {
      NoneNewer(runs[..|runs| - 1], cutoff);
    }
  }

  /** Pruning ordered runs keeps a suffix with at least the last ten runs and all newer ones. */
  lemma {:induction false} PrunedIsSuffix(h: History, cutoff: int)
    requires Ordered(h.runs)
    ensures var r := Pruned(h, cutoff).runs;
            && Suffix(r, h.runs) && (|r| >= KEPT || r == h.runs)
            && (forall i :: 0 <= i < |h.runs| - |r| ==> h.runs[i].timestamp <= cutoff)
  {
    NewerIsSuffix(h.runs, cutoff);
  }

  lemma {:induction false} NewerLast(runs: seq<TestRun>, cutoff: int)
    ensures forall run :: run in Newer(runs, cutoff) ==> run.timestamp > cutoff
  {
    if runs != [] {
      NewerLast(runs[..|runs| - 1], cutoff);
    }
  }

  /** In any order of times, pruning keeps the last run, and with it the agreement with the
      last status, exactly if the history is short, fewer than ten runs are newer, or the last
      run is newer itself. */
  lemma {:induction false} LastRunKeptExactly(h: History, cutoff: int)
    requires h.runs != []
    ensures var r := Pruned(h, cutoff).runs;
            && r != []
            && (r[|r| - 1] == h.runs[|h.runs| - 1]
                <==> |h.runs| <= KEPT || |Newer(h.runs, cutoff)| < KEPT || h.runs[|h.runs| - 1].timestamp > cutoff)
  {
    NewerLast(h.runs, cutoff);
    var newer := Newer(h.runs, cutoff);
    if newer != [] {
      assert newer[|newer| - 1] in newer;
    }
  }

  lemma {:induction false} AllNewer(runs: seq<TestRun>, cutoff: int)
    requires forall i :: 0 <= i < |runs| ==> runs[i].timestamp > cutoff
    ensures Newer(runs, cutoff) == runs
  {
    if runs != [] {
      AllNewer(runs[..|runs| - 1], cutoff);
    }
  }

  /** A failure recorded with an old time behind ten newer passes: it is pruned, and stays the
      last status. */
  lemma {:induction false} StaleFailureIsLost(h: History)
    requires h.runs == seq(10, _ => TestRun(2, "", Pass)) + [TestRun(0, "", Fail)] && h.lastStatus == Fail
    ensures var r := Pruned(h, 1);
            r.lastStatus == Fail && |r.runs| == 10 && forall i :: 0 <= i < 10 ==> r.runs[i].status == Pass
  {
    var passes := h.runs[..10];
    AllNewer(passes, 1);
    assert Newer(h.runs, 1) == Newer(passes, 1) + [];
  }

  /** Some clean-up was not older than the run. */
  predicate OlderThanSome(events: seq<Event>, run: TestRun) {
    exists e :: e in events && e.Cleanup? && run.timestamp <= e.cutoff
  }

  lemma {:induction false} SuffixOfSuffix(a: seq<TestRun>, b: seq<TestRun>, c: seq<TestRun>)
    requires Suffix(a, b) && Suffix(b, c)
    ensures Suffix(a, c)
  {
  }

  lemma {:induction false} OrderedParts(runs: seq<TestRun>, k: nat)
    requires Ordered(runs) && k <= |runs|
    ensures Ordered(runs[..k]) && Ordered(runs[k..])
  {
  }

  /** The kept runs are the end of all runs, at least the last ten; a dropped run was not
      newer than some clean-up's limit. */
  ghost predicate KeepsEnd(events: seq<Event>, all: seq<TestRun>, kept: seq<TestRun>) {
    && Suffix(kept, all) && (|kept| >= KEPT || kept == all)
    && forall i :: 0 <= i < |all| - |kept| ==> OlderThanSome(events, all[i])
  }

  lemma {:induction false} KeepsEndLater(events: seq<Event>, all: seq<TestRun>, kept: seq<TestRun>)
    requires events != [] && KeepsEnd(events[..|events| - 1], all, kept)
    ensures KeepsEnd(events, all, kept)
  {
  }

  lemma {:induction false} KeepsEndSnoc(events: seq<Event>, all: seq<TestRun>, kept: seq<TestRun>, run: TestRun)
    requires KeepsEnd(events, all, kept)
    ensures KeepsEnd(events, all + [run], kept + [run])
  {
    assert (all + [run])[|all| - |kept|..] == all[|all| - |kept|..] + [run];
  }

  lemma {:induction false} KeepsEndCleanup(events: seq<Event>, all: seq<TestRun>, h: History)
    requires events != [] && events[|events| - 1].Cleanup?
    requires KeepsEnd(events, all, h.runs) && Ordered(all)
    ensures KeepsEnd(events, all, Pruned(h, events[|events| - 1].cutoff).runs)
  {
    OrderedParts(all, |all| - |h.runs|);
    var cutoff := events[|events| - 1].cutoff;
    var kept := Pruned(h, cutoff).runs;
    PrunedIsSuffix(h, cutoff);
    SuffixOfSuffix(kept, h.runs, all);
    assert events[|events| - 1] in events;
    DroppedAreOlder(events, all, h.runs, kept, cutoff);
  }

  lemma {:induction false} DroppedAreOlder(events: seq<Event>, all: seq<TestRun>, runs: seq<TestRun>,
                                           kept: seq<TestRun>, cutoff: int)
    requires Cleanup(cutoff) in events && Suffix(runs, all) && Suffix(kept, runs)
    requires forall i :: 0 <= i < |all| - |runs| ==> OlderThanSome(events, all[i])
    requires forall i :: 0 <= i < |runs| - |kept| ==> runs[i].timestamp <= cutoff
    ensures forall i :: 0 <= i < |all| - |kept| ==> OlderThanSome(events, all[i])
  {
    var d := |all| - |runs|;
    forall i | d <= i < |all| - |kept|
      ensures OlderThanSome(events, all[i])
    {
      assert all[i] == runs[i - d];
    }
  }

  /** One more event of a test that was known before, and is still. */
  lemma {:induction false} OrderedStep(events: seq<Event>, e: Event, tests: Tests, name: string, all: seq<TestRun>,
                                       all': seq<TestRun>)
    requires events != [] && e == events[|events| - 1] && name in tests && name in Step(tests, e)
    requires KeepsEnd(events[..|events| - 1], all, tests[name].runs) && Ordered(all)
    requires all' == if e.Record? && e.name == name then all + [e.run] else all
    ensures KeepsEnd(events, all', Step(tests, e)[name].runs)
  {
    KeepsEndLater(events, all, tests[name].runs);
    match e
    case Record(n, _, run) => if n == name { KeepsEndSnoc(events, all, tests[name].runs, run); }
    case Cleanup(_) => KeepsEndCleanup(events, all, tests[name]);
    case _ =>
  }

  lemma {:induction false} OrderedFirst(events: seq<Event>, run: TestRun)
    ensures KeepsEnd(events, [run], [run])
  {
  }

  /** With times in order, a history is always the end of all recorded runs. */
  lemma {:induction false} OrderedHistory(events: seq<Event>, name: string)
    requires Ordered(AllRuns(events, name)) && name in After(events)
    ensures KeepsEnd(events, AllRuns(events, name), After(events)[name].runs)
  {
    var init, e := events[..|events| - 1], events[|events| - 1];
    var tests, all, all' := After(init), AllRuns(init, name), AllRuns(events, name);
    if name in tests {
      OrderedFront(all, all', e, name);
      OrderedHistory(init, name);
      OrderedStep(events, e, tests, name, all, all');
    } else {
      HistoryTracksRuns(init, name);
      OrderedFirst(events, e.run);
    }
  }

  lemma {:induction false} OrderedFront(all: seq<TestRun>, all': seq<TestRun>, e: Event, name: string)
    requires Ordered(all') && all' == if e.Record? && e.name == name then all + [e.run] else all
    ensures Ordered(all)
  {
    if all' != all { assert all == all'[..|all|]; OrderedParts(all', |all|); }
  }

  /** So the last status is that of the last kept run. */
  lemma {:induction false} LastStatusIsKept(events: seq<Event>, name: string)
    requires Ordered(AllRuns(events, name)) && name in After(events)
    ensures var h := After(events)[name];
            h.runs != [] && h.lastStatus == h.runs[|h.runs| - 1].status
  {
    OrderedHistory(events, name);
    HistoryTracksRuns(events, name);
  }

  // ---- Times in any order ----

  /** The clean-up drops all runs of the test that are not newer than its limit. */
  predicate Drops(tests: Tests, name: string, cutoff: int) {
    name in tests && |tests[name].runs| > KEPT && |Newer(tests[name].runs, cutoff)| >= KEPT
  }

  /** The runs of a test that no such clean-up has dropped, as if histories were never cut to
      their last ten runs. */
  function Uncut(events: seq<Event>, name: string): seq<TestRun> {
    if events == [] then []
    else
      var init := events[..|events| - 1];
      var before := Uncut(init, name);
      match events[|events| - 1]
      case Record(n, _, run) => if n == name then before + [run] else before
      case Cleanup(cutoff) => if Drops(After(init), name, cutoff) then Newer(before, cutoff) else before
      case ClearTest(n) => if n == name then [] else before
      case ClearAll => []
  }

  lemma {:induction false} NewerAppend(a: seq<TestRun>, b: seq<TestRun>, cutoff: int)
    ensures Newer(a + b, cutoff) == Newer(a, cutoff) + Newer(b, cutoff)
    decreases |b|
  {
    if b == [] {
      assert a + b == a;
    } else {
      var n := |b| - 1;
      NewerAppend(a, b[..n], cutoff);
      assert (a + b)[..|a + b| - 1] == a + b[..n];
    }
  }

  /** The end of the runs, at least the last ten. */
  predicate LongEnd(kept: seq<TestRun>, runs: seq<TestRun>) {
    Suffix(kept, runs) && (|kept| >= KEPT || kept == runs)
  }

  lemma {:induction false} LongEndSnoc(kept: seq<TestRun>, runs: seq<TestRun>, run: TestRun)
    requires LongEnd(kept, runs)
    ensures LongEnd(kept + [run], runs + [run])
  {
    assert (runs + [run])[|runs| - |kept|..] == runs[|runs| - |kept|..] + [run];
  }

  lemma {:induction false} LongEndNewer(kept: seq<TestRun>, runs: seq<TestRun>, cutoff: int)
    requires LongEnd(kept, runs) && |Newer(kept, cutoff)| >= KEPT
    ensures LongEnd(Newer(kept, cutoff), Newer(runs, cutoff))
  {
    var rest := runs[..|runs| - |kept|];
    assert rest + kept == runs;
    NewerAppend(rest, kept, cutoff);
  }

  lemma {:induction false} LongEndCut(h: History, runs: seq<TestRun>, cutoff: int)
    requires LongEnd(h.runs, runs) && !(|h.runs| > KEPT && |Newer(h.runs, cutoff)| >= KEPT)
    ensures LongEnd(Pruned(h, cutoff).runs, runs)
  {
    SuffixOfSuffix(Pruned(h, cutoff).runs, h.runs, runs);
  }

  /** What is kept of a test, if it is known, is the end of these runs. */
  ghost predicate KeepsLongEnd(tests: Tests, name: string, runs: seq<TestRun>) {
    if name in tests then tests[name].runs != [] && LongEnd(tests[name].runs, runs) else runs == []
  }

  lemma {:induction false} RecordedKeeps(tests: Tests, name: string, file: string, run: TestRun, runs: seq<TestRun>)
    requires KeepsLongEnd(tests, name, runs)
    ensures KeepsLongEnd(Recorded(tests, name, file, run), name, runs + [run])
  {
    if name in tests { LongEndSnoc(tests[name].runs, runs, run); }
  }

  lemma {:induction false} CleanedKeeps(tests: Tests, name: string, cutoff: int, runs: seq<TestRun>)
    requires KeepsLongEnd(tests, name, runs)
    ensures KeepsLongEnd(Cleaned(tests, cutoff), name, if Drops(tests, name, cutoff) then Newer(runs, cutoff) else runs)
  {
    if Drops(tests, name, cutoff) {
      LongEndNewer(tests[name].runs, runs, cutoff);
    } else if name in tests {
      LongEndCut(tests[name], runs, cutoff);
    }
  }

  /** For times in any order: cutting a history to ten runs never changes its end. */
  lemma {:induction false} KeptIsLongEnd(events: seq<Event>, name: string)
    ensures KeepsLongEnd(After(events), name, Uncut(events, name))
  {
    if events != [] {
      var init := events[..|events| - 1];
      KeptIsLongEnd(init, name);
      match events[|events| - 1]
      case Record(n, file, run) =>
        if n == name { RecordedKeeps(After(init), name, file, run, Uncut(init, name)); }
      case Cleanup(cutoff) => CleanedKeeps(After(init), name, cutoff, Uncut(init, name));
      case _ =>
    }
  }

  /** The last kept run is the last of `runs`, and it has the last status exactly if it ended
      like the last run of all. */
  ghost predicate EndsAlike(h: History, runs: seq<TestRun>, all: seq<TestRun>) {
    && h.runs != [] && runs != [] && all != []
    && h.runs[|h.runs| - 1] == runs[|runs| - 1]
    && (h.lastStatus == h.runs[|h.runs| - 1].status <==> runs[|runs| - 1].status == all[|all| - 1].status)
  }

  lemma {:induction false} LastAgrees(h: History, runs: seq<TestRun>, all: seq<TestRun>)
    requires h.runs != [] && LongEnd(h.runs, runs) && all != [] && h.lastStatus == all[|all| - 1].status
    ensures EndsAlike(h, runs, all)
  {
    SuffixLast(h.runs, runs);
  }

  /** For times in any order: the last status is that of the last kept run exactly if the
      last run that no clean-up dropped ended like the last run of all. */
  lemma {:induction false} LastStatusExactly(events: seq<Event>, name: string)
    requires name in After(events)
    ensures EndsAlike(After(events)[name], Uncut(events, name), AllRuns(events, name))
  {
    HistoryTracksRuns(events, name);
    KeptIsLongEnd(events, name);
    LastAgrees(After(events)[name], Uncut(events, name), AllRuns(events, name));
  }

  lemma {:induction false} SuffixLast(a: seq<TestRun>, b: seq<TestRun>)
    requires a != [] && Suffix(a, b)
    ensures b != [] && a[|a| - 1] == b[|b| - 1]
  {
    assert b[|b| - |a|..][|a| - 1] == b[|b| - 1];
  }

  // ---- Which clean-ups matter ----

  predicate Touches(event: Event, name: string) {
    match event
    case Record(n, _, _) => n == name
    case Cleanup(_) => false
    case ClearTest(n) => n == name
    case ClearAll => true
  }

  /** Nothing but clean-ups and events of other tests. */
  predicate Quiet(tail: seq<Event>, name: string) {
    forall i :: 0 <= i < |tail| ==> !Touches(tail[i], name)
  }

  /** The test is known, and its last status is that of its last kept run. */
  predicate Agrees(tests: Tests, name: string) {
    name in tests && tests[name].runs != [] && tests[name].lastStatus == tests[name].runs[|tests[name].runs| - 1].status
  }

  /** A run of a test, with what was recorded before and what happens behind it. */
  function Around(before: seq<Event>, last: Event, tail: seq<Event>): seq<Event> {
    before + [last] + tail
  }

  lemma {:induction false} AfterSnoc(events: seq<Event>, event: Event)
    ensures After(events + [event]) == Step(After(events), event)
  {
    assert (events + [event])[..|events|] == events;
  }

  lemma {:induction false} QuietStep(tests: Tests, event: Event, name: string)
    requires name in tests && !Touches(event, name)
    ensures name in Step(tests, event)
    ensures Step(tests, event)[name] == if event.Cleanup? then Pruned(tests[name], event.cutoff) else tests[name]
  {
  }

  /** One more event behind the run. */
  lemma {:induction false} AroundStep(before: seq<Event>, last: Event, tail: seq<Event>, name: string,
                                      front: seq<Event>)
    requires tail != [] && front == tail[..|tail| - 1] && Quiet(tail, name)
    ensures Quiet(front, name)
    ensures var e, tests := tail[|tail| - 1], After(Around(before, last, front));
            var tests' := After(Around(before, last, tail));
            name in tests ==>
              name in tests' && tests'[name] == if e.Cleanup? then Pruned(tests[name], e.cutoff) else tests[name]
  {
    var e, events := tail[|tail| - 1], Around(before, last, front);
    assert Around(before, last, tail) == events + [e];
    AfterSnoc(events, e);
    if name in After(events) { QuietStep(After(events), e, name); }
  }

  lemma {:induction false} AroundNothing(before: seq<Event>, last: Event)
    ensures After(Around(before, last, [])) == Step(After(before), last)
  {
    assert Around(before, last, []) == before + [last];
    AfterSnoc(before, last);
  }

  lemma {:induction false} OlderThanSomeSnoc(tail: seq<Event>, front: seq<Event>, run: TestRun)
    requires tail != [] && front == tail[..|tail| - 1]
    ensures OlderThanSome(tail, run) <==>
            OlderThanSome(front, run) || (tail[|tail| - 1].Cleanup? && run.timestamp <= tail[|tail| - 1].cutoff)
  {
    assert tail == front + [tail[|tail| - 1]];
  }

  /** The run is the last one kept, and its status the last one. */
  predicate EndsWith(tests: Tests, name: string, run: TestRun) {
    && name in tests && tests[name].runs != [] && tests[name].runs[|tests[name].runs| - 1] == run
    && tests[name].lastStatus == run.status
  }

  lemma {:induction false} StaysLast(h: History, h': History, run: TestRun, e: Event)
    requires h.runs != [] && h.runs[|h.runs| - 1] == run && h.lastStatus == run.status
    requires h' == if e.Cleanup? then Pruned(h, e.cutoff) else h
    requires e.Cleanup? ==> run.timestamp > e.cutoff
    ensures h'.runs != [] && h'.runs[|h'.runs| - 1] == run && h'.lastStatus == run.status
  {
    if e.Cleanup? { LastRunKeptExactly(h, e.cutoff); }
  }

  /** A run stays the last one if no clean-up behind it has a limit from its time on. */
  lemma {:induction false} RunStays(before: seq<Event>, name: string, file: string, run: TestRun, tail: seq<Event>)
    requires Quiet(tail, name) && !OlderThanSome(tail, run)
    ensures EndsWith(After(Around(before, Record(name, file, run), tail)), name, run)
    decreases |tail|
  {
    if tail == [] {
      AroundNothing(before, Record(name, file, run));
    } else {
      var front, e := tail[..|tail| - 1], tail[|tail| - 1];
      AroundStep(before, Record(name, file, run), tail, name, front);
      OlderThanSomeSnoc(tail, front, run);
      RunStays(before, name, file, run, front);
      StaysLast(After(Around(before, Record(name, file, run), front))[name],
                After(Around(before, Record(name, file, run), tail))[name], run, e);
    }
  }

  /** A time behind all limits. */
  function Later(tail: seq<Event>): (time: int)
    ensures forall i :: 0 <= i < |tail| && tail[i].Cleanup? ==> tail[i].cutoff < time
  {
    if tail == [] then 0
    else
      var e, time := tail[|tail| - 1], Later(tail[..|tail| - 1]);
      if e.Cleanup? && e.cutoff >= time then e.cutoff + 1 else time
  }

  function Copies(run: TestRun, k: nat): (runs: seq<TestRun>)
    ensures |runs| == k && forall i :: 0 <= i < k ==> runs[i] == run
  {
    seq(k, _ => run)
  }

  /** The same run recorded `k` times. */
  function Recordings(name: string, file: string, run: TestRun, k: nat): seq<Event> {
    if k == 0 then [] else Recordings(name, file, run, k - 1) + [Record(name, file, run)]
  }

  lemma {:induction false} CopiesSnoc(run: TestRun, k: nat, front: seq<TestRun>)
    requires front == Copies(run, k)
    ensures front + [run] == Copies(run, k + 1)
  {
  }

  /** The test has just these runs; none if it is not known. */
  predicate HasRuns(tests: Tests, name: string, runs: seq<TestRun>) {
    if runs == [] then name !in tests else name in tests && tests[name].runs == runs
  }

  lemma {:induction false} RecordsRun(tests: Tests, name: string, file: string, run: TestRun, front: seq<TestRun>)
    requires HasRuns(tests, name, front)
    ensures HasRuns(Recorded(tests, name, file, run), name, front + [run])
  {
  }

  lemma {:induction false} RunsOfRecordings(name: string, file: string, run: TestRun, k: nat)
    ensures HasRuns(After(Recordings(name, file, run, k)), name, Copies(run, k))
  {
    if k > 0 {
      var front, runs := Recordings(name, file, run, k - 1), Copies(run, k - 1);
      RunsOfRecordings(name, file, run, k - 1);
      AfterSnoc(front, Record(name, file, run));
      RecordsRun(After(front), name, file, run, runs);
      CopiesSnoc(run, k - 1, runs);
    }
  }

  /** Behind ten newer runs: the history is as recorded, or has lost the last run. */
  predicate TenAnd(tests: Tests, name: string, newer: TestRun, run: TestRun, lost: bool) {
    && name in tests && tests[name].lastStatus == run.status
    && tests[name].runs == Copies(newer, KEPT) + if lost then [] else [run]
  }

  lemma {:induction false} TenPruned(h: History, newer: TestRun, run: TestRun, lost: bool, cutoff: int)
    requires h.runs == Copies(newer, KEPT) + (if lost then [] else [run]) && newer.timestamp > cutoff
    ensures Pruned(h, cutoff).runs
            == Copies(newer, KEPT) + if lost || run.timestamp <= cutoff then [] else [run]
  {
    if !lost {
      AllNewer(Copies(newer, KEPT), cutoff);
      assert h.runs[..KEPT] == Copies(newer, KEPT);
    }
  }

  lemma {:induction false} RunIsLost(name: string, file: string, newer: TestRun, run: TestRun, tail: seq<Event>)
    requires Quiet(tail, name) && forall i :: 0 <= i < |tail| && tail[i].Cleanup? ==> tail[i].cutoff < newer.timestamp
    ensures TenAnd(After(Around(Recordings(name, file, newer, KEPT), Record(name, file, run), tail)), name, newer, run,
                   OlderThanSome(tail, run))
    decreases |tail|
  {
    var before, last := Recordings(name, file, newer, KEPT), Record(name, file, run);
    if tail == [] {
      RunsOfRecordings(name, file, newer, KEPT);
      AroundNothing(before, last);
    } else {
      var front, e := tail[..|tail| - 1], tail[|tail| - 1];
      AroundStep(before, last, tail, name, front);
      OlderThanSomeSnoc(tail, front, run);
      RunIsLost(name, file, newer, run, front);
      if e.Cleanup? {
        TenPruned(After(Around(before, last, front))[name], newer, run, OlderThanSome(front, run), e.cutoff);
      }
    }
  }

  /** Whatever was recorded before the last run of a test: the last status is that of the
      last kept run, exactly if no clean-up behind that run has a limit from its time on. */
  lemma {:induction false} LastStatusStaysExactly(name: string, file: string, run: TestRun, tail: seq<Event>)
    requires Quiet(tail, name)
    ensures (forall before :: Agrees(After(Around(before, Record(name, file, run), tail)), name))
            <==> !OlderThanSome(tail, run)
  {
    if OlderThanSome(tail, run) {
      var newer := TestRun(Later(tail), "", if run.status == Pass then Fail else Pass);
      RunIsLost(name, file, newer, run, tail);
      assert !Agrees(After(Around(Recordings(name, file, newer, KEPT), Record(name, file, run), tail)), name);
    } else {
      forall before
        ensures Agrees(After(Around(before, Record(name, file, run), tail)), name)
      {
        RunStays(before, name, file, run, tail);
      }
    }
  }

  /** Every history of a known test is of that form. */
  lemma {:induction false} LastRunOf(events: seq<Event>, name: string)
    returns (before: seq<Event>, file: string, run: TestRun, tail: seq<Event>)
    requires name in After(events)
    ensures events == Around(before, Record(name, file, run), tail) && Quiet(tail, name)
  {
    var init, e := events[..|events| - 1], events[|events| - 1];
    if e.Record? && e.name == name {
      before, file, run, tail := init, e.file, e.run, [];
    } else {
      before, file, run, tail := LastRunOf(init, name);
      tail := tail + [e];
    }
    assert events == init + [e];
  }

  // ---- In place ----

  class TestPersistence {
    var tests: Tests

    constructor ()
      ensures tests == After([])
    {
      tests := map[];
    }

    method RecordTestRun(name: string, file: string, run: TestRun) returns (hasChanged: bool)
      modifies this
      ensures tests == Recorded(old(tests), name, file, run)
      ensures hasChanged == StatusChanged(old(tests), name, run.status)
    {
      hasChanged := StatusChanged(tests, name, run.status);
      if name !in tests {
        tests := tests[name := History(file, [], run.status, run.gitHash, 0)];
      }
      var history := tests[name];
      history := history.(runs := history.runs + [run]);
      if hasChanged {
        history := history.(statusChanges := history.statusChanges + 1);
      }
      history := history.(lastStatus := run.status, lastGitHash := run.gitHash);
      tests := tests[name := history];
    }

    /** One round of the loop of `cleanupOldData`. */
    method CleanHistory(name: string, thirtyDaysAgo: int)
      requires name in tests
      modifies this
      ensures tests == old(tests)[name := Pruned(old(tests)[name], thirtyDaysAgo)]
    {
      var history := tests[name];
      if |history.runs| > KEPT {
        var filtered := Newer(history.runs, thirtyDaysAgo);
        if |filtered| < KEPT {
          history := history.(runs := history.runs[|history.runs| - KEPT..]);
        } else {
          history := history.(runs := filtered);
        }
        tests := tests[name := history];
      }
    }

    /** The loop of `cleanupOldData`. */
    method CleanupOldData(thirtyDaysAgo: int)
      modifies this
      ensures tests == Cleaned(old(tests), thirtyDaysAgo)
    {
      var names := tests.Keys;
      while names != {}
        invariant names <= tests.Keys == old(tests).Keys
        invariant forall name :: name in tests ==>
                                   tests[name] == if name in names then old(tests)[name]
                                                  else Pruned(old(tests)[name], thirtyDaysAgo)
        decreases |names|
      {
        var name :| name in names;
        CleanHistory(name, thirtyDaysAgo);
        names := names - {name};
      }
    }

    method ClearTestHistory(name: string)
      modifies this
      ensures tests == old(tests) - {name}
    {
      tests := tests - {name};
    }

    method ClearAllHistory()
      modifies this
      ensures tests == map[]
    {
      tests := map[];
    }
  }
}
