/** `trace dump` and `profile` of the command line. */
module TraceProfile {
  import opened Machine
  import opened Options
  import opened TraceRing
  import opened Iteration

  // ---- trace dump ----

  /** What the filters look at: the disassembly text and the addresses stored to. */
  datatype Line = Line(mnemonic: string, stores: seq<Word32>)

  datatype Filter = All | Calls | Io

  predicate WordAt(s: string, i: nat, word: string)
    requires i + |word| <= |s|
  {
    s[i..i + |word|] == word
  }

  /** `mnemonic.find(word) != npos` */
  predicate Contains(s: string, word: string) {
    exists i :: 0 <= i <= |s| - |word| && WordAt(s, i, word)
  }

  predicate Matches(filter: Filter, line: Line) {
    match filter
    case All => true
    case Calls =>
      Contains(line.mnemonic, "JSR") || Contains(line.mnemonic, "RTS")
      || Contains(line.mnemonic, "RTI") || Contains(line.mnemonic, "BSR")
    case Io => exists i :: 0 <= i < |line.stores| && 0xD000 <= line.stores[i] <= 0xDFFF
  }

  lemma {:induction false} WordInside(s: string, word: string, i: nat)
    requires i + 3 <= |s| && |word| == 3 && s[i..i + 3] == word
    ensures Contains(s, word)
  {
    assert WordAt(s, i, word);
  }

  /** A line with one of four mnemonics, at `j`, passes the filter for calls. */
  lemma {:induction false} CallPasses(line: Line, j: nat)
    requires j + 3 <= |line.mnemonic| && line.mnemonic[j..j + 3] in {"JSR", "RTS", "RTI", "BSR"}
    ensures Matches(Calls, line)
  {
    WordInside(line.mnemonic, line.mnemonic[j..j + 3], j);
  }

  lemma {:induction false} WordWithin(s: string, word: string) returns (i: nat)
    requires |word| == 3 && Contains(s, word)
    ensures i + 3 <= |s| && s[i..i + 3] == word
  {
    i :| 0 <= i <= |s| - |word| && WordAt(s, i, word);
  }

  /** And a line that passes it has one. */
  lemma {:induction false} PassingCall(line: Line) returns (i: nat)
    requires Matches(Calls, line)
    ensures i + 3 <= |line.mnemonic| && line.mnemonic[i..i + 3] in {"JSR", "RTS", "RTI", "BSR"}
  {
    var s := line.mnemonic;
    i := WordWithin(s, if Contains(s, "JSR") then "JSR" else if Contains(s, "RTS") then "RTS"
                       else if Contains(s, "RTI") then "RTI" else "BSR");
  }

  /** The other filters let everything through, and the lines with a store to the I/O area. */
  lemma {:induction false} FilterTells(line: Line)
    ensures Matches(All, line)
    ensures Matches(Io, line) <==> exists a :: a in line.stores && 0xD000 <= a < 0xE000
  {
    if Matches(Io, line) {
      var i :| 0 <= i < |line.stores| && 0xD000 <= line.stores[i] <= 0xDFFF;
      assert line.stores[i] in line.stores;
    }
    if exists a :: a in line.stores && 0xD000 <= a < 0xE000 {
      var a :| a in line.stores && 0xD000 <= a < 0xE000;
      var i :| 0 <= i < |line.stores| && line.stores[i] == a;
    }
  }

  /** The indices of all matching entries from `from` on, oldest first. */
  function Selected(filter: Filter, trace: seq<Line>, from: nat): (r: seq<nat>)
    requires from <= |trace|
    ensures forall k :: 0 <= k < |r| ==> from <= r[k] < |trace| && Matches(filter, trace[r[k]])
    ensures forall j, k :: 0 <= j < k < |r| ==> r[j] < r[k]
    decreases |trace| - from
  {
    if from == |trace| then []
    else (if Matches(filter, trace[from]) then [from] else []) + Selected(filter, trace, from + 1)
  }

  /** Every matching entry is among them. */
  lemma {:induction false} SelectedHasAll(filter: Filter, trace: seq<Line>, from: nat, i: nat)
    requires from <= i < |trace| && Matches(filter, trace[i])
    ensures i in Selected(filter, trace, from)
    decreases i - from
  {
    if from < i {
      SelectedHasAll(filter, trace, from + 1, i);
    }
  }

  lemma {:induction false} SelectedStep(filter: Filter, trace: seq<Line>, from: nat, here: seq<nat>)
    requires from < |trace| && here == if Matches(filter, trace[from]) then [from] else []
    ensures Selected(filter, trace, from) == here + Selected(filter, trace, from + 1)
  {
  }

  lemma {:induction false} SelectedSplit(filter: Filter, trace: seq<Line>, from: nat, mid: nat)
    returns (front: seq<nat>)
    requires from <= mid <= |trace|
    ensures Selected(filter, trace, from) == front + Selected(filter, trace, mid) && (from == mid ==> front == [])
    decreases mid - from
  {
    if from == mid {
      front := [];
    } else {
      var rest := SelectedSplit(filter, trace, from + 1, mid);
      var here: seq<nat> := if Matches(filter, trace[from]) then [from] else [];
      front := here + rest;
      SelectedStep(filter, trace, from, here);
      Regroup(here, rest, Selected(filter, trace, mid));
    }
  }

  lemma {:induction false} Regroup(a: seq<nat>, b: seq<nat>, c: seq<nat>)
    ensures a + (b + c) == a + b + c
  {
  }

  function Reversed(s: seq<nat>): (r: seq<nat>)
    ensures |r| == |s|
  {
    seq<nat>(|s|, k requires 0 <= k < |s| => s[|s| - 1 - k])
  }

  lemma {:induction false} ReversedSnoc(s: seq<nat>, x: nat)
    ensures Reversed(s + [x]) == [x] + Reversed(s)
  {
  }

  lemma {:induction false} LastOfEnd(front: seq<nat>, end: seq<nat>, n: nat)
    requires |end| <= n && (|end| < n ==> front == [])
    ensures LastOf(front + end, n) == end
  {
  }

  /** The selection of `trace dump n`: backwards through the buffer until there are `n`, then
      reversed. The result is the last `n` matching entries of what reading by index shows,
      oldest first. */
  method Dump(buffer: CircularBuffer<Line>, filter: Filter, n: int) returns (indices: seq<nat>)
    requires buffer.State().Valid()
    ensures indices == LastOf(Selected(filter, buffer.State().Read(), 0), if n < 0 then 0 else n)
  {
    ghost var trace := buffer.State().Read();
    var collected: seq<nat> := [];
    var i := buffer.size;
    while i > 0 && |collected| < n
      invariant 0 <= i <= buffer.size && |collected| <= (if n < 0 then 0 else n)
      invariant Reversed(collected) == Selected(filter, trace, i)
    {
      i := i - 1;
      var entry := buffer.At(i);
      assert entry == Some(trace[i]);
      if Matches(filter, entry.value) {
        ReversedSnoc(collected, i);
        collected := collected + [i];
      }
    }
    ghost var front := SelectedSplit(filter, trace, 0, i);
    LastOfEnd(front, Selected(filter, trace, i), if n < 0 then 0 else n);
    return Reversed(collected);
  }

  /** After any steps and back steps, whatever was traced: index `i` of `trace dump` shows the
      entry that the trace should hold there if the buffer is in step, and otherwise what
      another instruction's entry has left. */
  lemma {:induction false} DumpIsTrueExactly(r: Ring<Line>, ops: seq<Op<Line>>, moved: Line -> Line, i: nat)
    requires Fresh(r) && i < Ran(r, ops, moved).size
    ensures ReadsPush(r, ops, moved, i)
    ensures ReadsOwn(r, ops, moved, i) <==> InStep(ops, |r.slots|)
    ensures InStep(ops, |r.slots|) ==> Ran(r, ops, moved).Read() == Kept(ops, |r.slots|)
  {
    ReadsPushExactly(r, ops, moved, i);
    if InStep(ops, |r.slots|) { ReadIsContents(r, ops, moved); }
  }

  // ---- profile ----

  /** How often an address occurs in a list of program counters. */
  function Count(pcs: seq<Word32>, a: Word32): (k: nat) {
    if pcs == [] then 0 else Count(pcs[..|pcs| - 1], a) + if pcs[|pcs| - 1] == a then 1 else 0
  }

  type Histogram = map<Word32, nat>

  /** The histogram counts each address that occurs. */
  ghost predicate Counts(h: Histogram, pcs: seq<Word32>) {
    && (forall a :: a in h <==> Count(pcs, a) > 0)
    && forall a :: a in h ==> h[a] == Count(pcs, a)
  }

  /** The program counters in front of the first `n` steps. */
  function Visited<S>(step: S -> S, pc: S -> Word32, s: S, n: nat): (pcs: seq<Word32>)
    ensures |pcs| == n
  {
    if n == 0 then [] else Visited(step, pc, s, n - 1) + [pc(Iterated(step, s, n - 1))]
  }

  /** `n` is where the sampling loop ends: at the limit, an interrupt, or a pause. */
  ghost predicate StopsAt<S(!new)>(step: S -> S, paused: S -> bool, interrupted: nat -> bool, s: S, steps: nat,
    n: nat) {
    && n <= steps
    && (n == steps || interrupted(n) || (n > 0 && paused(Iterated(step, s, n))))
    && forall i: nat :: i < n ==> !interrupted(i) && (i > 0 ==> !paused(Iterated(step, s, i)))
  }

  /** The sampling loop of `profile`; `n` is the number of steps it makes. */
  method Sample<S(!new)>(step: S -> S, pc: S -> Word32, paused: S -> bool, interrupted: nat -> bool, s0: S, steps: nat)
    returns (histogram: Histogram, s: S, n: nat)
    ensures StopsAt(step, paused, interrupted, s0, steps, n)
    ensures s == Iterated(step, s0, n) && Counts(histogram, Visited(step, pc, s0, n))
  {
    histogram, s, n := map[], s0, 0;
    while n < steps && !interrupted(n)
      invariant n <= steps && s == Iterated(step, s0, n)
      invariant Counts(histogram, Visited(step, pc, s0, n))
      invariant forall k: nat :: k < n ==> !interrupted(k)
      invariant forall k: nat :: 0 < k <= n ==> !paused(Iterated(step, s0, k))
    {
      CountsSnoc(histogram, Visited(step, pc, s0, n), pc(s));
      histogram := Bump(histogram, pc(s));
      s := step(s);
      n := n + 1;
      if paused(s) { break; }
    }
  }

  lemma {:induction false} CountSnoc(pcs: seq<Word32>, pc: Word32, a: Word32)
    ensures Count(pcs + [pc], a) == Count(pcs, a) + if pc == a then 1 else 0
  {
    assert (pcs + [pc])[..|pcs|] == pcs;
  }

  lemma {:induction false} CountsSnoc(h: Histogram, pcs: seq<Word32>, pc: Word32)
    requires Counts(h, pcs)
    ensures Counts(Bump(h, pc), pcs + [pc])
  {
    forall a: Word32
      ensures Count(pcs + [pc], a) == Count(pcs, a) + if pc == a then 1 else 0
    {
      CountSnoc(pcs, pc, a);
    }
  }

  /** The entries of the histogram, each once, in some order. */
  ghost predicate Listed(entries: seq<(Word32, nat)>, h: Histogram) {
    && (forall k :: 0 <= k < |entries| ==> entries[k].0 in h && entries[k].1 == h[entries[k].0])
    && (forall a :: a in h ==> (a, h[a]) in entries)
    && (forall j, k :: 0 <= j < k < |entries| ==> entries[j].0 != entries[k].0)
  }

  /** What `std::sort` makes of them: counts descending, ties in any order. */
  ghost predicate Sorted(sorted: seq<(Word32, nat)>, h: Histogram) {
    && Listed(sorted, h)
    && forall j, k :: 0 <= j < k < |sorted| ==> sorted[j].1 >= sorted[k].1
  }

  /** The table `profile` lists. */
  function Top(sorted: seq<(Word32, nat)>, top: nat): (t: seq<(Word32, nat)>) {
    if |sorted| > top then sorted[..top] else sorted
  }

  /** However ties are sorted, no unlisted address has run more often than a listed one, and
      only a full table leaves addresses out. */
  lemma {:induction false} TopIsTop(sorted: seq<(Word32, nat)>, h: Histogram, pcs: seq<Word32>, top: nat, a: Word32)
    requires Counts(h, pcs) && Sorted(sorted, h)
    requires Count(pcs, a) > 0 && (a, h[a]) !in Top(sorted, top)
    ensures |Top(sorted, top)| == top
    ensures forall e :: e in Top(sorted, top) ==> e.1 == Count(pcs, e.0) >= Count(pcs, a)
  {
    assert (a, h[a]) in sorted;
    var k :| 0 <= k < |sorted| && sorted[k] == (a, h[a]);
    assert forall i :: 0 <= i < |Top(sorted, top)| ==> Top(sorted, top)[i] == sorted[i];
    assert k >= top;
  }

  /** `totalSamples`: the counts of the entries added up. */
  function Total(entries: seq<(Word32, nat)>): nat {
    if entries == [] then 0 else Total(entries[..|entries| - 1]) + entries[|entries| - 1].1
  }

  predicate Distinct(addrs: seq<Word32>) {
    forall j, k :: 0 <= j < k < |addrs| ==> addrs[j] != addrs[k]
  }

  function TotalCount(addrs: seq<Word32>, pcs: seq<Word32>): nat {
    if addrs == [] then 0 else TotalCount(addrs[..|addrs| - 1], pcs) + Count(pcs, addrs[|addrs| - 1])
  }

  lemma {:induction false} TotalCountEmpty(addrs: seq<Word32>)
    ensures TotalCount(addrs, []) == 0
  {
    if addrs != [] {
      TotalCountEmpty(addrs[..|addrs| - 1]);
    }
  }

  lemma {:induction false} TotalCountSnoc(addrs: seq<Word32>, pcs: seq<Word32>, pc: Word32)
    requires Distinct(addrs)
    ensures TotalCount(addrs, pcs + [pc]) == TotalCount(addrs, pcs) + if pc in addrs then 1 else 0
  {
    if addrs != [] {
      var n := |addrs| - 1;
      TotalCountSnoc(addrs[..n], pcs, pc);
      CountSnoc(pcs, pc, addrs[n]);
      assert addrs[..n] + [addrs[n]] == addrs;
    }
  }

  lemma {:induction false} TotalCountIsLength(addrs: seq<Word32>, pcs: seq<Word32>)
    requires Distinct(addrs) && forall pc :: pc in pcs ==> pc in addrs
    ensures TotalCount(addrs, pcs) == |pcs|
  {
    if pcs == [] {
      TotalCountEmpty(addrs);
    } else {
      var n := |pcs| - 1;
      TotalCountIsLength(addrs, pcs[..n]);
      TotalCountSnoc(addrs, pcs[..n], pcs[n]);
      assert pcs[..n] + [pcs[n]] == pcs;
    }
  }

  function Addresses(entries: seq<(Word32, nat)>): (addrs: seq<Word32>)
    ensures |addrs| == |entries| && forall k :: 0 <= k < |addrs| ==> addrs[k] == entries[k].0
  {
    if entries == [] then [] else Addresses(entries[..|entries| - 1]) + [entries[|entries| - 1].0]
  }

  lemma {:induction false} TotalIsTotalCount(entries: seq<(Word32, nat)>, pcs: seq<Word32>)
    requires forall k :: 0 <= k < |entries| ==> entries[k].1 == Count(pcs, entries[k].0)
    ensures Total(entries) == TotalCount(Addresses(entries), pcs)
  {
    if entries != [] {
      var n := |entries| - 1;
      TotalIsTotalCount(entries[..n], pcs);
      assert Addresses(entries)[..n] == Addresses(entries[..n]);
    }
  }

  lemma {:induction false} OccursCounts(pcs: seq<Word32>, a: Word32)
    ensures Count(pcs, a) > 0 <==> a in pcs
  {
    if pcs != [] {
      var n := |pcs| - 1;
      OccursCounts(pcs[..n], a);
      assert pcs[..n] + [pcs[n]] == pcs;
    }
  }

  /** In whatever order it is listed, the counts of the histogram add up to the number of
      executed instructions. */
  lemma {:induction false} TotalIsExecuted(entries: seq<(Word32, nat)>, h: Histogram, pcs: seq<Word32>)
    requires Counts(h, pcs) && Listed(entries, h)
    ensures Total(entries) == |pcs|
  {
    var addrs := Addresses(entries);
    forall a | a in pcs
      ensures a in addrs
    {
      OccursCounts(pcs, a);
      var k :| 0 <= k < |entries| && entries[k] == (a, h[a]);
      assert addrs[k] == a;
    }
    TotalIsTotalCount(entries, pcs);
    TotalCountIsLength(addrs, pcs);
  }
}
