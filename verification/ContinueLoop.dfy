/** The `c` packet of the GDB server: step until a breakpoint, a BRK, an interrupt byte
    from the client, or the step limit. */
module ContinueLoop {
  import opened Iteration
  import opened GdbPackets

  const MAX_STEPS := 100_000_000

  const POLL_EVERY := 1024

  /** The emulator, for any type of machine state. `brk` is "the byte at PC is $00". */
  datatype Engine<!S> = Engine(resume: S -> S, step: S -> S, paused: S -> bool, brk: S -> bool)

  /** A client byte, and after how many steps of this run it can be read. */
  datatype Arrival = Arrival(c: char, at: nat)

  /** How many client bytes the first `k` polls have consumed; a poll takes one byte if one is there. */
  function Taken(input: seq<Arrival>, k: nat): (t: nat)
    ensures t <= |input|
  {
    if k == 0 then 0
    else
      var t := Taken(input, k - 1);
      if t < |input| && input[t].at <= POLL_EVERY * k then t + 1 else t
  }

  /** Poll number `k` reads the interrupt byte. */
  predicate Interrupted(input: seq<Arrival>, k: nat) {
    k > 0 && Taken(input, k) > Taken(input, k - 1) && input[Taken(input, k - 1)].c == INTERRUPT
  }

  predicate Halted<S>(e: Engine<S>, s: S, n: nat) {
    e.paused(Iterated(e.step, s, n)) || e.brk(Iterated(e.step, s, n))
  }

  predicate InterruptedAt(input: seq<Arrival>, n: nat) {
    n % POLL_EVERY == 0 && Interrupted(input, n / POLL_EVERY)
  }

  /** The loop ends after `n` steps, if it gets there. */
  predicate Stops<S>(e: Engine<S>, s: S, input: seq<Arrival>, n: nat) {
    Halted(e, s, n) || InterruptedAt(input, n) || n >= MAX_STEPS
  }

  /** `n` is the least number of steps, at least one, after which the loop ends. */
  ghost predicate Least<S>(e: Engine<S>, s: S, input: seq<Arrival>, n: nat) {
    1 <= n && Stops(e, s, input, n) && forall k :: 1 <= k < n ==> !Stops(e, s, input, k)
  }

  /** The number of steps of a run, if the first `n - 1` do not end it. */
  function StopAfter<S>(e: Engine<S>, s: S, input: seq<Arrival>, n: nat): (k: nat)
    ensures k >= n
    decreases MAX_STEPS - n
  {
    if Stops(e, s, input, n) then n else StopAfter(e, s, input, n + 1)
  }

  function ReplyAfter<S>(e: Engine<S>, s: S, input: seq<Arrival>, n: nat): string {
    if !Halted(e, s, n) && InterruptedAt(input, n) then "S02" else "S05"
  }

  /** The client bytes that a run of `n` steps reads; one that halts does not poll again. */
  function TakenAfter<S>(e: Engine<S>, s: S, input: seq<Arrival>, n: nat): (t: nat)
    requires n > 0
    ensures t <= |input|
  {
    Taken(input, if Halted(e, s, n) then (n - 1) / POLL_EVERY else n / POLL_EVERY)
  }

  lemma {:induction false} StopIsLeast<S>(e: Engine<S>, s: S, input: seq<Arrival>, n: nat)
    requires 1 <= n <= MAX_STEPS && forall k :: 1 <= k < n ==> !Stops(e, s, input, k)
    ensures Least(e, s, input, StopAfter(e, s, input, n)) && StopAfter(e, s, input, n) <= MAX_STEPS
    decreases MAX_STEPS - n
  {
    if !Stops(e, s, input, n) {
      StopIsLeast(e, s, input, n + 1);
    }
  }

  method HandleContinue<S>(e: Engine<S>, s0: S, input: seq<Arrival>)
    returns (s: S, reply: string, steps: nat, taken: nat)
    ensures Least(e, e.resume(s0), input, steps) && steps <= MAX_STEPS
    ensures s == Iterated(e.step, e.resume(s0), steps)
    ensures reply == ReplyAfter(e, e.resume(s0), input, steps)
    ensures taken == TakenAfter(e, e.resume(s0), input, steps)
  {
    s := e.resume(s0);
    ghost var start := s;
    steps, taken := 0, 0;
    while steps < MAX_STEPS
      invariant steps <= MAX_STEPS
      invariant s == Iterated(e.step, start, steps)
      invariant forall k :: 1 <= k <= steps && k < MAX_STEPS ==> !Stops(e, start, input, k)
      invariant steps == MAX_STEPS ==> !Halted(e, start, steps) && !InterruptedAt(input, steps)
      invariant taken == Taken(input, steps / POLL_EVERY)
      decreases MAX_STEPS - steps
    {
      s := e.step(s);
      steps := steps + 1;
      if e.paused(s) || e.brk(s) { return s, "S05", steps, taken; }
      if steps % POLL_EVERY == 0 {
        assert steps / POLL_EVERY == (steps - 1) / POLL_EVERY + 1;
        if taken < |input| && input[taken].at <= steps {
          taken := taken + 1;
          if input[taken - 1].c == INTERRUPT { return s, "S02", steps, taken; }
        }
      } else {
        assert steps / POLL_EVERY == (steps - 1) / POLL_EVERY;
      }
    }
    reply := "S05";
  }

  // ---- How a run ends ----

  lemma {:induction false} NoEarlierHalt<S>(e: Engine<S>, s: S, input: seq<Arrival>, n: nat, k: nat)
    requires Least(e, s, input, n) && 1 <= k < n
    ensures !e.paused(Iterated(e.step, s, k)) && !e.brk(Iterated(e.step, s, k))
  {
    assert !Stops(e, s, input, k);
  }

  /** A run is answered S02 exactly if neither a pause nor a BRK nor the limit has ended it; then
      an interrupt byte that had arrived was the last byte it has read. */
  lemma {:induction false} RunEnds<S>(e: Engine<S>, s: S, input: seq<Arrival>, n: nat)
    requires Least(e, s, input, n) && n <= 100_000_000
    ensures var s', reply, taken := Iterated(e.step, s, n), ReplyAfter(e, s, input, n), TakenAfter(e, s, input, n);
            && (reply == "S02" <==> !e.paused(s') && !e.brk(s') && n < 100_000_000)
            && (reply != "S02" ==> reply == "S05")
            && (reply == "S02" ==> n % 1024 == 0 && 0 < taken)
            && (reply == "S02" ==> input[taken - 1].c == 3 as char && input[taken - 1].at <= n)
  {
  }

  // ---- How soon an interrupt is noticed ----

  lemma {:induction false} TakenAtMost<S>(e: Engine<S>, s: S, input: seq<Arrival>, n: nat)
    requires n > 0
    ensures var s' := Iterated(e.step, s, n);
            TakenAfter(e, s, input, n) <= if e.paused(s') || e.brk(s') then (n - 1) / 1024 else n / 1024
  {
    OneByteAPoll(input, (n - 1) / 1024);
    OneByteAPoll(input, n / 1024);
  }

  /** Each poll takes one byte at most. */
  lemma {:induction false} OneByteAPoll(input: seq<Arrival>, k: nat)
    ensures Taken(input, k) <= k
  {
    if k > 0 {
      OneByteAPoll(input, k - 1);
    }
  }

  lemma {:induction false} TakenGrows(input: seq<Arrival>, j: nat, k: nat)
    requires j <= k
    ensures Taken(input, j) <= Taken(input, k)
  {
    if j < k {
      TakenGrows(input, j, k - 1);
    }
  }

  /** The bytes ahead of an interrupt that is there after `at` steps are consumed at one per poll. */
  lemma {:induction false} QueueDrains(input: seq<Arrival>, q: nat, j: nat)
    requires q < |input| && forall i :: 0 <= i <= q ==> input[i].at <= input[q].at
    ensures var k0 := input[q].at / POLL_EVERY;
            var t0 := Taken(input, k0);
            t0 <= q ==> Taken(input, k0 + j) >= if t0 + j <= q + 1 then t0 + j else q + 1
  {
    if j > 0 {
      QueueDrains(input, q, j - 1);
      var k := input[q].at / POLL_EVERY + j;
      assert input[q].at <= POLL_EVERY * k;
      TakenGrows(input, k - 1, k);
    }
  }

  /** The poll that takes byte `q`, if the first `k` polls take it at all. */
  lemma {:induction false} PollThatTakes(input: seq<Arrival>, q: nat, k: nat) returns (p: nat)
    requires Taken(input, k) > q
    ensures 0 < p <= k && Taken(input, p - 1) == q && Taken(input, p) == q + 1
  {
    if k > 0 && Taken(input, k - 1) > q {
      p := PollThatTakes(input, q, k - 1);
    } else {
      p := k;
    }
  }

  /** With `ahead` unread bytes in front of it when it arrives, an interrupt ends the run
      within `(ahead + 1) * 1024` steps of its arrival, if nothing ends it sooner. */
  lemma {:induction false} InterruptLatency<S>(e: Engine<S>, s: S, input: seq<Arrival>, q: nat, n: nat)
    requires Least(e, s, input, n)
    requires q < |input| && input[q].c == INTERRUPT
    requires forall i :: 0 <= i <= q ==> input[i].at <= input[q].at
    ensures var ahead := q - Taken(input, input[q].at / POLL_EVERY);
            ahead >= 0 ==> n <= input[q].at + POLL_EVERY * (ahead + 1)
    ensures Taken(input, input[q].at / POLL_EVERY) > q ==> n <= input[q].at
  {
    var k0 := input[q].at / POLL_EVERY;
    var t0 := Taken(input, k0);
    var last := if t0 <= q then k0 + (q - t0) + 1 else k0;
    if t0 <= q {
      QueueDrains(input, q, q - t0 + 1);
    }
    var p := PollThatTakes(input, q, last);
    assert Interrupted(input, p);
    assert (POLL_EVERY * p) / POLL_EVERY == p && (POLL_EVERY * p) % POLL_EVERY == 0;
    assert Stops(e, s, input, POLL_EVERY * p);
  }

  /** The client sends nothing while the run can last. */
  predicate Waits(input: seq<Arrival>) {
    forall i :: 0 <= i < |input| ==> input[i].at > MAX_STEPS
  }

  lemma {:induction false} NothingTaken(input: seq<Arrival>, k: nat)
    requires Waits(input) && POLL_EVERY * k <= MAX_STEPS
    ensures Taken(input, k) == 0 && !Interrupted(input, k)
  {
    if k > 0 {
      NothingTaken(input, k - 1);
    }
  }

  /** Then the run depends on the machine alone and leaves the stream to the packets behind it. */
  lemma {:induction false} WaitingRun<S>(e: Engine<S>, s: S, input: seq<Arrival>, n: nat)
    requires Waits(input) && 1 <= n <= MAX_STEPS
    ensures var k := StopAfter(e, s, [], n);
            && n <= k <= MAX_STEPS && StopAfter(e, s, input, n) == k
            && TakenAfter(e, s, input, k) == 0 && ReplyAfter(e, s, input, k) == "S05"
    decreases MAX_STEPS - n
  {
    NothingTaken(input, n / POLL_EVERY);
    NothingTaken([], n / POLL_EVERY);
    if Stops(e, s, [], n) {
      NothingTaken(input, (n - 1) / POLL_EVERY);
    } else {
      WaitingRun(e, s, input, n + 1);
    }
  }
}
