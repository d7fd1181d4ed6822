/** The `analyze routine` command: a worklist over the control-flow graph of the
    disassembled code, with a visited set and an instruction budget. */
module RoutineAnalyser {
  import opened Machine
  import opened Options
  import opened Iteration

  /** What the disassembler reports for one address, with the byte found there. */
  datatype Insn = Insn(bytes: int, isReturn: bool, isCall: bool, isBranch: bool, target: Word32, opcode: Byte)

  datatype Kind = Undecodable | Return | Call | Branch | Jump | Stop | Plain

  datatype CallInfo = CallInfo(target: Word32, from: Word32)

  datatype LoopInfo = LoopInfo(branchAddr: Word32, target: Word32)

  datatype Report = Report(visited: set<Word32>, calls: seq<CallInfo>, loops: seq<LoopInfo>, exits: seq<Word32>,
                           totalInsns: nat, branchCount: nat, minAddr: Word32, maxAddr: Word32,
                           callCounts: map<Word32, nat>, truncated: bool)

  const MAX_BUDGET := 5000

  /** An arbitrary disassembler over unchanged memory. `mask` is `addr & addrMask`;
      nothing below depends on which function it is. */
  datatype Code = Code(decode: Word32 -> Insn, mask: Word32 -> Word32) {

    function KindAt(pc: Word32): Kind {
      var i := decode(pc);
      if i.bytes <= 0 then Undecodable
      else if i.isReturn then Return
      else if i.isCall then Call
      else if i.isBranch then Branch
      else if i.opcode == 0x4C then Jump
      else if i.opcode == 0x6C || i.opcode == 0x00 then Stop
      else Plain
    }

    function Target(pc: Word32): Word32
    {
      mask(decode(pc).target)
    }

    function Next(pc: Word32): Word32
    {
      mask(Wrap(pc + decode(pc).bytes))
    }

    /** Address of the last byte of an instruction; it is not masked. */
    function Last(pc: Word32): Word32 {
      Wrap(pc + decode(pc).bytes - 1)
    }

    /** Where control can go from `pc`, as far as the analyser follows it. */
    ghost function Succ(pc: Word32): set<Word32>
    {
      match KindAt(pc)
      case Call | Plain => {Next(pc)}
      case Branch => {Target(pc), Next(pc)}
      case Jump => {Target(pc)}
      case Undecodable | Return | Stop => {}
    }

    ghost predicate IsPath(p: seq<Word32>)
    {
      forall i, j :: 0 <= i < j < |p| && j == i + 1 ==> p[j] in Succ(p[i])
    }

    ghost predicate Reaches(entry: Word32, a: Word32)
    {
      exists p: seq<Word32> :: |p| > 0 && p[0] == entry && p[|p| - 1] == a && IsPath(p)
    }

    /** Everything control can reach from the entry. */
    ghost function ReachSet(entry: Word32): set<Word32>
    {
      set a: int | 0 <= a < WORD32 && Reaches(entry, a)
    }

    // The instructions of each kind among a set of addresses.

    ghost function Decoded(V: set<Word32>): set<Word32> {
      set v | v in V && KindAt(v) != Undecodable
    }

    ghost function CallSet(V: set<Word32>): set<CallInfo>
    {
      set v | v in V && KindAt(v) == Call :: CallInfo(Target(v), v)
    }

    ghost function LoopSet(V: set<Word32>): set<LoopInfo>
    {
      set v | v in V && KindAt(v) == Branch && Target(v) <= v :: LoopInfo(v, Target(v))
    }

    ghost function ExitSet(V: set<Word32>): set<Word32> {
      set v | v in V && (KindAt(v) == Return || KindAt(v) == Stop)
    }

    ghost function BranchSet(V: set<Word32>): set<Word32> {
      set v | v in V && KindAt(v) == Branch
    }

    ghost function LastBytes(V: set<Word32>): set<Word32> {
      set v | v in V && KindAt(v) != Undecodable :: Last(v)
    }
  }

  ghost predicate IsLeast(x: int, s: set<Word32>) {
    x in s && forall y :: y in s ==> x <= y
  }

  ghost predicate IsGreatest(x: int, s: set<Word32>) {
    x in s && forall y :: y in s ==> y <= x
  }

  function Targets(calls: seq<CallInfo>): (r: seq<Word32>)
    ensures |r| == |calls|
  {
    seq<Word32>(|calls|, i requires 0 <= i < |calls| => calls[i].target)
  }

  /** `cc` counts how often each target is called. */
  ghost predicate Counts(cc: map<Word32, nat>, calls: seq<CallInfo>) {
    && (forall t :: t in cc <==> t in multiset(Targets(calls)))
    && (forall t :: t in cc ==> cc[t] == multiset(Targets(calls))[t])
  }

  /** One list entry per visited instruction of each kind. */
  ghost predicate ListsOf(code: Code, V: set<Word32>, calls: seq<CallInfo>, loops: seq<LoopInfo>, exits: seq<Word32>) {
    && multiset(calls) == multiset(code.CallSet(V))
    && multiset(loops) == multiset(code.LoopSet(V))
    && multiset(exits) == multiset(code.ExitSet(V))
  }

  /** The tight hull of the visited instructions' bytes and the entry. */
  ghost predicate HullOf(code: Code, entry: Word32, V: set<Word32>, lo: Word32, hi: Word32) {
    && IsLeast(lo, {entry} + code.Decoded(V))
    && IsGreatest(hi, {entry} + code.LastBytes(V))
  }

  /** What a report says about the code, in whatever order the worklist is emptied. */
  ghost predicate Describes(code: Code, entry: Word32, limit: int, r: Report)
  {
    && r.visited <= code.ReachSet(entry)
    && (!r.truncated ==> r.visited == code.ReachSet(entry))
    && r.truncated == (r.totalInsns >= limit)
    && (r.totalInsns <= limit || r.totalInsns == 0)
    && r.totalInsns == |code.Decoded(r.visited)|
    && r.branchCount == |code.BranchSet(r.visited)|
    && ListsOf(code, r.visited, r.calls, r.loops, r.exits)
    && HullOf(code, entry, r.visited, r.minAddr, r.maxAddr)
    && Counts(r.callCounts, r.calls)
    && Total(r.callCounts) == |r.calls|
  }

  // ---- Counting calls per target ----

  ghost function Total(m: map<Word32, nat>): nat {
    if m == map[] then 0
    else var k :| k in m; m[k] + Total(m - {k})
  }

  lemma {:induction false} TotalRemove(m: map<Word32, nat>, k: Word32)
    requires k in m
    ensures Total(m) == m[k] + Total(m - {k})
  {
    var j :| j in m && Total(m) == m[j] + Total(m - {j});
    if j != k {
      TotalRemove(m - {j}, k);
      TotalRemove(m - {k}, j);
      assert m - {j} - {k} == m - {k} - {j};
    }
  }

  lemma {:induction false} TotalUpdate(m: map<Word32, nat>, k: Word32, v: nat)
    ensures Total(m[k := v]) == v + Total(m - {k})
  {
    TotalRemove(m[k := v], k);
    assert m[k := v] - {k} == m - {k};
  }

  /** One more call of `t`. */
  lemma {:induction false} TotalBump(cc: map<Word32, nat>, t: Word32)
    ensures Total(Bump(cc, t)) == Total(cc) + 1
  {
    TotalUpdate(cc, t, (if t in cc then cc[t] else 0) + 1);
    if t in cc {
      TotalRemove(cc, t);
    } else {
      assert cc - {t} == cc;
    }
  }

  lemma {:induction false} CountsBump(cc: map<Word32, nat>, calls: seq<CallInfo>, c: CallInfo)
    requires Counts(cc, calls)
    ensures Counts(Bump(cc, c.target), calls + [c])
  {
    assert Targets(calls + [c]) == Targets(calls) + [c.target];
    assert multiset(Targets(calls) + [c.target]) == multiset(Targets(calls)) + multiset{c.target};
  }

  method CountCalls(calls: seq<CallInfo>) returns (cc: map<Word32, nat>)
    ensures Counts(cc, calls)
    ensures Total(cc) == |calls|
  {
    cc := map[];
    for i := 0 to |calls|
      invariant Counts(cc, calls[..i])
      invariant Total(cc) == i
    {
      CountsBump(cc, calls[..i], calls[i]);
      TotalBump(cc, calls[i].target);
      assert calls[..i + 1] == calls[..i] + [calls[i]];
      cc := Bump(cc, calls[i].target);
    }
    assert calls[..|calls|] == calls;
  }

  // ---- One instruction ----

  function NewCalls(code: Code, pc: Word32): seq<CallInfo>
  {
    if code.KindAt(pc) == Call then [CallInfo(code.Target(pc), pc)] else []
  }

  function NewLoops(code: Code, pc: Word32): seq<LoopInfo>
  {
    if code.KindAt(pc) == Branch && code.Target(pc) <= pc then [LoopInfo(pc, code.Target(pc))] else []
  }

  function NewExits(code: Code, pc: Word32): seq<Word32> {
    if code.KindAt(pc) == Return || code.KindAt(pc) == Stop then [pc] else []
  }

  function NewBranches(code: Code, pc: Word32): nat {
    if code.KindAt(pc) == Branch then 1 else 0
  }

  /** Appending a list of at most one new element keeps list and set in step. */
  lemma {:induction false} AppendNew<T>(s: seq<T>, A: set<T>, extra: seq<T>)
    requires multiset(s) == multiset(A) && |extra| <= 1
    requires forall x :: x in extra ==> x !in A
    ensures multiset(s + extra) == multiset(A + (set x | x in extra))
  {
    if extra == [] {
      assert s + extra == s && A + (set x | x in extra) == A;
    } else {
      assert (set x | x in extra) == {extra[0]};
      assert multiset(A + {extra[0]}) == multiset(A) + multiset{extra[0]};
      assert extra == [extra[0]];
    }
  }

  lemma {:induction false} CallsGrow(code: Code, V: set<Word32>, pc: Word32, calls: seq<CallInfo>)
    requires pc !in V && multiset(calls) == multiset(code.CallSet(V))
    ensures multiset(calls + NewCalls(code, pc)) == multiset(code.CallSet(V + {pc}))
  {
    AppendNew(calls, code.CallSet(V), NewCalls(code, pc));
    assert code.CallSet(V + {pc}) == code.CallSet(V) + (set x | x in NewCalls(code, pc));
  }

  lemma {:induction false} LoopsGrow(code: Code, V: set<Word32>, pc: Word32, loops: seq<LoopInfo>)
    requires pc !in V && multiset(loops) == multiset(code.LoopSet(V))
    ensures multiset(loops + NewLoops(code, pc)) == multiset(code.LoopSet(V + {pc}))
  {
    AppendNew(loops, code.LoopSet(V), NewLoops(code, pc));
    assert code.LoopSet(V + {pc}) == code.LoopSet(V) + (set x | x in NewLoops(code, pc));
  }

  lemma {:induction false} ExitsGrow(code: Code, V: set<Word32>, pc: Word32, exits: seq<Word32>)
    requires pc !in V && multiset(exits) == multiset(code.ExitSet(V))
    ensures multiset(exits + NewExits(code, pc)) == multiset(code.ExitSet(V + {pc}))
  {
    AppendNew(exits, code.ExitSet(V), NewExits(code, pc));
    assert code.ExitSet(V + {pc}) == code.ExitSet(V) + (set x | x in NewExits(code, pc));
  }

  lemma {:induction false} BranchesGrow(code: Code, V: set<Word32>, pc: Word32)
    requires pc !in V
    ensures |code.BranchSet(V + {pc})| == |code.BranchSet(V)| + NewBranches(code, pc)
  {
    if code.KindAt(pc) == Branch {
      assert code.BranchSet(V + {pc}) == code.BranchSet(V) + {pc};
    } else {
      assert code.BranchSet(V + {pc}) == code.BranchSet(V);
    }
  }

  lemma {:induction false} HullGrows(code: Code, entry: Word32, V: set<Word32>, pc: Word32, lo: Word32, hi: Word32)
    requires code.KindAt(pc) != Undecodable && HullOf(code, entry, V, lo, hi)
    ensures HullOf(code, entry, V + {pc}, Min(lo, pc), Max(hi, code.Last(pc)))
  {
    assert code.Decoded(V + {pc}) == code.Decoded(V) + {pc};
    assert code.LastBytes(V + {pc}) == code.LastBytes(V) + {code.Last(pc)};
  }

  function Min(a: Word32, b: Word32): Word32 { if b < a then b else a }

  function Max(a: Word32, b: Word32): Word32 { if b > a then b else a }

  /** The running lists, branch count and bounds of the command. */
  datatype Tally = Tally(calls: seq<CallInfo>, loops: seq<LoopInfo>, exits: seq<Word32>,
                         branches: nat, lo: Word32, hi: Word32)

  /** The instructions decoded so far, the latest outermost. */
  datatype Trail = Start | Then(before: Trail, pc: Word32) {
    ghost function Members(): set<Word32> {
      if Start? then {} else before.Members() + {pc}
    }

    ghost function Length(): nat {
      if Start? then 0 else before.Length() + 1
    }

    /** Decodable instructions, each at most once. */
    ghost predicate Proper(code: Code) {
      Then? ==> before.Proper(code) && pc !in before.Members() && code.KindAt(pc) != Undecodable
    }
  }

  /** The tally after decoding the instructions of a trail. */
  ghost function TallyOf(code: Code, entry: Word32, trail: Trail): Tally {
    match trail
    case Start => Tally([], [], [], 0, entry, entry)
    case Then(before, pc) => TallyInsn(code, TallyOf(code, entry, before), pc)
  }

  ghost function TallyInsn(code: Code, t: Tally, pc: Word32): Tally {
    Tally(t.calls + NewCalls(code, pc), t.loops + NewLoops(code, pc), t.exits + NewExits(code, pc),
          t.branches + NewBranches(code, pc), Min(t.lo, pc), Max(t.hi, code.Last(pc)))
  }

  /** Decoding each instruction of a set once, in any order, lists the set. */
  lemma {:induction false} TrailLists(code: Code, entry: Word32, trail: Trail)
    requires trail.Proper(code)
    ensures var t := TallyOf(code, entry, trail); ListsOf(code, trail.Members(), t.calls, t.loops, t.exits)
  {
    if trail.Then? {
      var t := TallyOf(code, entry, trail.before);
      TrailLists(code, entry, trail.before);
      CallsGrow(code, trail.before.Members(), trail.pc, t.calls);
      LoopsGrow(code, trail.before.Members(), trail.pc, t.loops);
      ExitsGrow(code, trail.before.Members(), trail.pc, t.exits);
    }
  }

  lemma {:induction false} TrailBranches(code: Code, entry: Word32, trail: Trail)
    requires trail.Proper(code)
    ensures TallyOf(code, entry, trail).branches == |code.BranchSet(trail.Members())|
    ensures trail.Length() == |trail.Members()|
  {
    if trail.Then? {
      TrailBranches(code, entry, trail.before);
      BranchesGrow(code, trail.before.Members(), trail.pc);
    }
  }

  lemma {:induction false} TrailHull(code: Code, entry: Word32, trail: Trail)
    requires trail.Proper(code)
    ensures var t := TallyOf(code, entry, trail); HullOf(code, entry, trail.Members(), t.lo, t.hi)
  {
    if trail.Then? {
      var t := TallyOf(code, entry, trail.before);
      TrailHull(code, entry, trail.before);
      HullGrows(code, entry, trail.before.Members(), trail.pc, t.lo, t.hi);
    }
  }

  /** Addresses that do not decode change none of the sets. */
  lemma {:induction false} OnlyDecodedCount(code: Code, V: set<Word32>)
    ensures var W := code.Decoded(V);
            && code.CallSet(W) == code.CallSet(V) && code.LoopSet(W) == code.LoopSet(V)
            && code.ExitSet(W) == code.ExitSet(V) && code.BranchSet(W) == code.BranchSet(V)
            && code.Decoded(W) == code.Decoded(V) && code.LastBytes(W) == code.LastBytes(V)
  {
  }

  lemma {:induction false} DecodedGrows(code: Code, visited: set<Word32>, pc: Word32)
    ensures code.Decoded(visited + {pc}) == code.Decoded(visited) + if code.KindAt(pc) == Undecodable then {} else {pc}
  {
  }

  // ---- Reachability ----

  lemma {:induction false} EntryReached(code: Code, entry: Word32)
    ensures entry in code.ReachSet(entry)
  {
    assert [entry][0] == entry && code.IsPath([entry]);
  }

  lemma {:induction false} StepReached(code: Code, entry: Word32, a: Word32, b: Word32)
    requires a in code.ReachSet(entry) && b in code.Succ(a)
    ensures b in code.ReachSet(entry)
  {
    var p: seq<Word32> :| |p| > 0 && p[0] == entry && p[|p| - 1] == a && code.IsPath(p);
    var q := p + [b];
    assert q[0] == entry && q[|q| - 1] == b && code.IsPath(q);
  }

  lemma {:induction false} StepsInside(code: Code, entry: Word32)
    ensures Closed(code, code.ReachSet(entry))
  {
    forall a, b | a in code.ReachSet(entry) && b in code.Succ(a)
      ensures b in code.ReachSet(entry)
    {
      StepReached(code, entry, a, b);
    }
  }

  /** Control flow does not leave `V`. */
  ghost predicate Closed(code: Code, V: set<Word32>) {
    forall v, s :: v in V && s in code.Succ(v) ==> s in V
  }

  lemma {:induction false} PathStaysInside(code: Code, V: set<Word32>, p: seq<Word32>)
    requires |p| > 0 && code.IsPath(p) && p[0] in V
    requires Closed(code, V)
    ensures p[|p| - 1] in V
  {
    if |p| > 1 {
      var q := p[..|p| - 1];
      assert forall i :: 0 <= i < |q| ==> q[i] == p[i];
      PathStaysInside(code, V, q);
      assert p[|p| - 1] in code.Succ(p[|p| - 2]);
    }
  }

  /** A set that holds the entry and is closed under control flow holds everything reachable. */
  lemma {:induction false} ClosedIsComplete(code: Code, entry: Word32, V: set<Word32>)
    requires entry in V
    requires Closed(code, V)
    ensures code.ReachSet(entry) <= V
  {
    forall a | a in code.ReachSet(entry)
      ensures a in V
    {
      var p: seq<Word32> :| |p| > 0 && p[0] == entry && p[|p| - 1] == a && code.IsPath(p);
      PathStaysInside(code, V, p);
    }
  }

  /** Every successor of a visited address is visited or still to be visited. */
  ghost predicate Covered(code: Code, V: set<Word32>, queue: seq<Word32>, current: set<Word32>)
  {
    forall v, s :: v in V && s in code.Succ(v) ==> s in V || s in queue || s in current
  }

  lemma {:induction false} CoveredStep(code: Code, V: set<Word32>, queue: seq<Word32>, pc: Word32, queue': seq<Word32>,
                                       next: Option<Word32>)
    requires Covered(code, V, queue, {pc}) && queue <= queue'
    requires forall x :: x in code.Succ(pc) ==> x in V + {pc} || x in queue' || next == Some(x)
    ensures Covered(code, V + {pc}, queue', if next.Some? then {next.value} else {})
  {
    assert queue' == queue + queue'[|queue|..];
  }

  lemma {:induction false} CoveredDone(code: Code, V: set<Word32>, queue: seq<Word32>, pc: Word32)
    requires Covered(code, V, queue, {pc}) && pc in V
    ensures Covered(code, V, queue, {})
  {
  }

  /** One decoded instruction: its list entries, the branch target queued for later,
      and where the straight line goes on, if it does. */
  method DecodeAt(code: Code, pc: Word32, visited: set<Word32>, t: Tally, queue: seq<Word32>)
    returns (t': Tally, queue': seq<Word32>, next: Option<Word32>)
    requires code.KindAt(pc) != Undecodable
    ensures t' == TallyInsn(code, t, pc)
    ensures queue <= queue' && forall x :: x in queue'[|queue|..] ==> x in code.Succ(pc)
    ensures next.Some? ==> next.value in code.Succ(pc)
    ensures forall x :: x in code.Succ(pc) ==> x in visited || x in queue' || next == Some(x)
  {
    var insn := code.decode(pc);
    queue' := queue;
    t' := t;
    if pc < t'.lo { t' := t'.(lo := pc); }
    if Wrap(pc + insn.bytes - 1) > t'.hi { t' := t'.(hi := Wrap(pc + insn.bytes - 1)); }

    if insn.isReturn {
      t' := t'.(exits := t'.exits + [pc]);
      next := None;
    } else if insn.isCall {
      t' := t'.(calls := t'.calls + [CallInfo(code.mask(insn.target), pc)]);
      next := Some(code.mask(Wrap(pc + insn.bytes)));
    } else if insn.isBranch {
      t' := t'.(branches := t'.branches + 1);
      var target: Word32 := code.mask(insn.target);
      if target <= pc { t' := t'.(loops := t'.loops + [LoopInfo(pc, target)]); }
      if target !in visited { queue' := queue + [target]; }
      next := Some(code.mask(Wrap(pc + insn.bytes)));
    } else if insn.opcode == 0x4C {
      next := Some(code.mask(insn.target));
    } else if insn.opcode == 0x6C || insn.opcode == 0x00 {
      t' := t'.(exits := t'.exits + [pc]);
      next := None;
    } else {
      next := Some(code.mask(Wrap(pc + insn.bytes)));
    }
  }

  /** The state of the worklist: visited addresses, pending branch targets, tally and budget used. */
  datatype Walk = Walk(visited: set<Word32>, queue: seq<Word32>, tally: Tally, totalInsns: nat)

  ghost predicate Within(w: Walk, reach: set<Word32>) {
    w.visited <= reach && forall x :: x in w.queue ==> x in reach
  }

  /** The trail records what the walk has decoded. */
  ghost predicate Booked(code: Code, entry: Word32, w: Walk, trail: Trail) {
    && w.tally == TallyOf(code, entry, trail)
    && trail.Proper(code) && trail.Length() == w.totalInsns && trail.Members() == code.Decoded(w.visited)
  }

  lemma {:induction false} BookedInsn(code: Code, entry: Word32, w: Walk, trail: Trail, pc: Word32, queue: seq<Word32>)
    requires Booked(code, entry, w, trail) && pc !in w.visited && code.KindAt(pc) != Undecodable
    ensures Booked(code, entry,
                   Walk(w.visited + {pc}, queue, TallyInsn(code, w.tally, pc), w.totalInsns + 1), Then(trail, pc))
  {
    DecodedGrows(code, w.visited, pc);
  }

  lemma {:induction false} BookedSkip(code: Code, entry: Word32, w: Walk, trail: Trail, pc: Word32)
    requires Booked(code, entry, w, trail) && code.KindAt(pc) == Undecodable
    ensures Booked(code, entry, w.(visited := w.visited + {pc}), trail)
  {
    DecodedGrows(code, w.visited, pc);
  }

  lemma {:induction false} WithinInsn(code: Code, w: Walk, reach: set<Word32>, pc: Word32, queue: seq<Word32>)
    requires Within(w, reach) && pc in reach && Closed(code, reach) && w.queue <= queue
    requires forall x :: x in queue[|w.queue|..] ==> x in code.Succ(pc)
    ensures Within(w.(visited := w.visited + {pc}, queue := queue), reach)
    ensures forall x :: x in w.queue ==> x in queue
  {
    assert queue == w.queue + queue[|w.queue|..];
  }

  /** The inner loop: decodes the straight line from `start` until it ends, meets a
      visited address, or the budget is spent. */
  method FollowLine(code: Code, entry: Word32, limit: int, start: Word32, w0: Walk, ghost trail0: Trail,
                    ghost reach: set<Word32>)
    returns (w: Walk, ghost trail: Trail)
    requires w0.totalInsns < limit
    requires Within(w0, reach) && start in reach && Closed(code, reach)
    requires Covered(code, w0.visited, w0.queue, {start}) && Booked(code, entry, w0, trail0)
    ensures w.totalInsns <= limit
    ensures Within(w, reach) && Booked(code, entry, w, trail)
    ensures w0.visited + {start} <= w.visited && forall x :: x in w0.queue ==> x in w.queue
    ensures w.totalInsns < limit ==> Covered(code, w.visited, w.queue, {})
    ensures w0.totalInsns < w.totalInsns || (w.totalInsns == w0.totalInsns && w.queue == w0.queue)
  {
    var pc := start;
    w, trail := w0, trail0;
    while w.totalInsns < limit
      invariant w.totalInsns <= limit
      invariant Within(w, reach) && pc in reach && Booked(code, entry, w, trail)
      invariant w0.visited <= w.visited && forall x :: x in w0.queue ==> x in w.queue
      invariant (w == w0 && pc == start) || start in w.visited
      invariant Covered(code, w.visited, w.queue, {pc})
      invariant w0.totalInsns < w.totalInsns || w == w0
      decreases limit - w.totalInsns
    {
      if pc in w.visited { break; }
      if code.decode(pc).bytes <= 0 {
        BookedSkip(code, entry, w, trail, pc);
        w := w.(visited := w.visited + {pc});
        break;
      }
      var t, queue, next := DecodeAt(code, pc, w.visited + {pc}, w.tally, w.queue);
      CoveredStep(code, w.visited, w.queue, pc, queue, next);
      WithinInsn(code, w, reach, pc, queue);
      BookedInsn(code, entry, w, trail, pc, queue);
      trail := Then(trail, pc);
      w := Walk(w.visited + {pc}, queue, t, w.totalInsns + 1);
      if next.None? { break; }
      pc := next.value;
    }
    if w.totalInsns < limit {
      CoveredDone(code, w.visited, w.queue, pc);
    }
  }

  /** Which pending target is taken next. */
  type Order = seq<Word32> -> nat

  /** The source takes the newest one. */
  const NEWEST: Order := (queue: seq<Word32>) => if queue == [] then 0 else |queue| - 1

  function Without<T>(s: seq<T>, i: nat): seq<T>
    requires i < |s|
  {
    s[..i] + s[i + 1..]
  }

  lemma {:induction false} WithoutHas<T>(s: seq<T>, i: nat)
    requires i < |s|
    ensures |Without(s, i)| == |s| - 1 && forall x :: x in s <==> x == s[i] || x in Without(s, i)
  {
    assert s == s[..i] + [s[i]] + s[i + 1..];
  }

  /** The worklist, over any set `reach` that holds the entry and is closed under
      control flow, in any order. The visited set never leaves `reach`, and within the
      budget it is closed itself. */
  method Explore(code: Code, entry: Word32, limit: int, order: Order, ghost reach: set<Word32>)
    returns (w: Walk, ghost trail: Trail)
    requires entry in reach && Closed(code, reach)
    ensures w.totalInsns <= limit || w.totalInsns == 0
    ensures Within(w, reach) && Booked(code, entry, w, trail)
    ensures w.totalInsns < limit ==> entry in w.visited && Closed(code, w.visited)
  {
    w, trail := Walk({}, [entry], Tally([], [], [], 0, entry, entry), 0), Start;
    while w.queue != [] && w.totalInsns < limit
      invariant w.totalInsns <= limit || w.totalInsns == 0
      invariant Within(w, reach) && Booked(code, entry, w, trail)
      invariant w.totalInsns < limit ==> entry in w.visited || entry in w.queue
      invariant w.totalInsns < limit ==> Covered(code, w.visited, w.queue, {})
      decreases limit - w.totalInsns, |w.queue|
    {
      var i := order(w.queue) % |w.queue|;
      WithoutHas(w.queue, i);
      w, trail := FollowLine(code, entry, limit, w.queue[i], w.(queue := Without(w.queue, i)), trail, reach);
    }
  }

  /** The analysis terminates for every decoder, cyclic code included, in every order. */
  method AnalyzeInOrder(code: Code, entry: Word32, maxInsns: int, order: Order) returns (r: Report)
    ensures Describes(code, entry, if maxInsns > MAX_BUDGET then MAX_BUDGET else maxInsns, r)
  {
    var limit := if maxInsns > MAX_BUDGET then MAX_BUDGET else maxInsns;
    ghost var reach := code.ReachSet(entry);
    EntryReached(code, entry);
    StepsInside(code, entry);
    var w, trail := Explore(code, entry, limit, order, reach);
    if w.totalInsns < limit {
      ClosedIsComplete(code, entry, w.visited);
    }
    TrailLists(code, entry, trail);
    TrailBranches(code, entry, trail);
    TrailHull(code, entry, trail);
    OnlyDecodedCount(code, w.visited);
    var t := w.tally;
    var cc := CountCalls(t.calls);
    r := Report(w.visited, t.calls, t.loops, t.exits, w.totalInsns, t.branches, t.lo, t.hi, cc, w.totalInsns >= limit);
  }

  /** The command. */
  method Analyze(code: Code, entry: Word32, maxInsns: int) returns (r: Report)
    ensures Describes(code, entry, if maxInsns > 5000 then 5000 else maxInsns, r)
  {
    r := AnalyzeInOrder(code, entry, maxInsns, NEWEST);
  }

  // ---- What the command promises ----

  lemma {:induction false} SubsetSize(A: set<Word32>, B: set<Word32>)
    requires A <= B
    ensures |A| <= |B| && (|A| == |B| ==> A == B)
  {
    assert B == A + (B - A) && A !! B - A;
    assert |B| == |A| + |B - A|;
  }

  /** The truncation note appears exactly when the routine has at least `limit`
      instructions, and the instruction count is the smaller of the two. */
  lemma {:induction false} TruncatedExactly(code: Code, entry: Word32, limit: int, r: Report)
    requires Describes(code, entry, limit, r)
    ensures var n := |code.Decoded(code.ReachSet(entry))|;
            && (r.truncated <==> n >= limit)
            && r.totalInsns == if n <= limit then n else if limit < 0 then 0 else limit
  {
    SubsetSize(code.Decoded(r.visited), code.Decoded(code.ReachSet(entry)));
  }

  /** The lists, the hull and the counts cover the whole routine exactly when its
      instructions fit the budget, the note notwithstanding. */
  lemma {:induction false} CompleteExactly(code: Code, entry: Word32, limit: int, r: Report)
    requires Describes(code, entry, limit, r)
    ensures var all := code.ReachSet(entry);
            && (code.Decoded(r.visited) == code.Decoded(all)
                <==> |code.Decoded(all)| <= if limit < 0 then 0 else limit)
            && (code.Decoded(r.visited) == code.Decoded(all) ==>
                ListsOf(code, all, r.calls, r.loops, r.exits) && HullOf(code, entry, all, r.minAddr, r.maxAddr))
  {
    TruncatedExactly(code, entry, limit, r);
    SubsetSize(code.Decoded(r.visited), code.Decoded(code.ReachSet(entry)));
    OnlyDecodedCount(code, r.visited);
    OnlyDecodedCount(code, code.ReachSet(entry));
  }

  /** The order in which the worklist is emptied cannot show in a complete report: everything
      but the order of the lists is settled by the code and the entry. */
  lemma {:induction false} OrderIrrelevant(code: Code, entry: Word32, limit: int, r: Report, limit': int, r': Report)
    requires Describes(code, entry, limit, r) && Describes(code, entry, limit', r')
    requires !r.truncated && !r'.truncated
    ensures r.visited == r'.visited && r.totalInsns == r'.totalInsns && r.branchCount == r'.branchCount
    ensures r.minAddr == r'.minAddr && r.maxAddr == r'.maxAddr && r.callCounts == r'.callCounts
    ensures multiset(r.calls) == multiset(r'.calls) && multiset(r.loops) == multiset(r'.loops)
    ensures multiset(r.exits) == multiset(r'.exits)
  {
    TargetsDetermined(r.calls, r'.calls);
  }

  // ---- The report in terms of the decoded instructions ----

  /** Where the instruction at `pc` leads: a set that holds all of it. */
  predicate Follows(code: Code, V: set<Word32>, pc: Word32) {
    var i := code.decode(pc);
    var target, behind := code.mask(i.target), code.mask((pc + i.bytes) % 0x1_0000_0000);
    i.bytes <= 0 || i.isReturn ||
    if i.isCall then behind in V
    else if i.isBranch then target in V && behind in V
    else if i.opcode == 0x4C then target in V
    else i.opcode in {0x6C, 0x00} || behind in V
  }

  lemma {:induction false} EntryVisited(code: Code, entry: Word32, limit: int, r: Report)
    requires Describes(code, entry, limit, r) && !r.truncated
    ensures entry in r.visited && Closed(code, r.visited)
  {
    EntryReached(code, entry);
    StepsInside(code, entry);
  }

  /** A complete report holds the entry and, with every address, those that its instruction
      leads to. */
  lemma {:induction false} VisitedFollow(code: Code, entry: Word32, limit: int, r: Report, pc: Word32)
    requires Describes(code, entry, limit, r) && !r.truncated && pc in r.visited
    ensures entry in r.visited
    ensures var i := code.decode(pc);
            var target, behind := code.mask(i.target), code.mask((pc + i.bytes) % 0x1_0000_0000);
            i.bytes > 0 && !i.isReturn ==>
              && (i.isCall || i.isBranch ==> behind in r.visited)
              && (!i.isCall && i.isBranch ==> target in r.visited)
              && (!i.isCall && !i.isBranch && i.opcode == 0x4C ==> target in r.visited)
              && (!i.isCall && !i.isBranch && i.opcode !in {0x4C, 0x6C, 0x00} ==> behind in r.visited)
    ensures Follows(code, r.visited, pc)
  {
    EntryVisited(code, entry, limit, r);
    assert forall x :: x in code.Succ(pc) ==> x in r.visited;
  }

  /** And nothing but those: no report, complete or not, leaves a set that holds the entry and,
      with every address, those that its instruction leads to. */
  lemma {:induction false} VisitedIsLeast(code: Code, entry: Word32, limit: int, r: Report, V: set<Word32>)
    requires Describes(code, entry, limit, r)
    requires entry in V && forall pc :: pc in V ==> Follows(code, V, pc)
    ensures r.visited <= V
  {
    forall v, w | v in V && w in code.Succ(v)
      ensures w in V
    {
      assert Follows(code, V, v);
    }
    ClosedIsComplete(code, entry, V);
  }

  lemma {:induction false} CountInSet<T>(s: seq<T>, A: set<T>, x: T)
    requires multiset(s) == multiset(A)
    ensures multiset(s)[x] == if x in A then 1 else 0
  {
  }

  /** What every report books for an address: one exit, call or loop, as its instruction says,
      and only if it was visited. */
  lemma {:induction false} ExitsTell(code: Code, entry: Word32, limit: int, r: Report, pc: Word32)
    requires Describes(code, entry, limit, r)
    ensures var i := code.decode(pc);
            multiset(r.exits)[pc] ==
            if pc in r.visited && i.bytes > 0 && (i.isReturn || (!i.isCall && !i.isBranch && i.opcode in {0x6C, 0x00}))
            then 1 else 0
  {
    CountInSet(r.exits, code.ExitSet(r.visited), pc);
  }

  lemma {:induction false} CallsTell(code: Code, entry: Word32, limit: int, r: Report, pc: Word32, target: Word32)
    requires Describes(code, entry, limit, r)
    ensures var i := code.decode(pc);
            multiset(r.calls)[CallInfo(target, pc)] ==
            if pc in r.visited && i.bytes > 0 && !i.isReturn && i.isCall && target == code.mask(i.target) then 1 else 0
  {
    CountInSet(r.calls, code.CallSet(r.visited), CallInfo(target, pc));
  }

  lemma {:induction false} LoopsTell(code: Code, entry: Word32, limit: int, r: Report, pc: Word32, target: Word32)
    requires Describes(code, entry, limit, r)
    ensures var i := code.decode(pc);
            multiset(r.loops)[LoopInfo(pc, target)] ==
            if pc in r.visited && i.bytes > 0 && !i.isReturn && !i.isCall && i.isBranch
               && target == code.mask(i.target) && target <= pc
            then 1 else 0
  {
    CountInSet(r.loops, code.LoopSet(r.visited), LoopInfo(pc, target));
  }

  /** The range holds the bytes of every decoded instruction. */
  lemma {:induction false} RangeTells(code: Code, entry: Word32, limit: int, r: Report, pc: Word32)
    requires Describes(code, entry, limit, r) && pc in r.visited && code.decode(pc).bytes > 0
    ensures r.minAddr <= pc && (pc + code.decode(pc).bytes - 1) % 0x1_0000_0000 <= r.maxAddr
  {
    assert pc in code.Decoded(r.visited) && code.Last(pc) in code.LastBytes(r.visited);
  }

  /** The counts of a report. */
  lemma {:induction false} CountsTell(code: Code, entry: Word32, limit: int, r: Report)
    requires Describes(code, entry, limit, r)
    ensures r.totalInsns == |set v | v in r.visited && code.decode(v).bytes > 0|
    ensures var V := r.visited;
            r.branchCount == |set v | v in V && code.decode(v).bytes > 0 && !code.decode(v).isReturn
                                      && !code.decode(v).isCall && code.decode(v).isBranch|
  {
    var V := r.visited;
    assert code.Decoded(V) == set v | v in V && code.decode(v).bytes > 0;
    assert code.BranchSet(V) == set v | v in V && code.decode(v).bytes > 0 && !code.decode(v).isReturn
                                        && !code.decode(v).isCall && code.decode(v).isBranch;
  }

  /** The source's order is a stack: the target queued last is taken first. */
  lemma {:induction false} NewestIsLast(queue: seq<Word32>, x: Word32)
    ensures var i := NEWEST(queue + [x]) % |queue + [x]|;
            (queue + [x])[i] == x && Without(queue + [x], i) == queue
  {
    assert |queue + [x]| == |queue| + 1;
    assert (queue + [x])[|queue|] == x;
  }

  lemma {:induction false} RemoveOne(s: seq<CallInfo>, i: nat)
    requires i < |s|
    ensures multiset(s) == multiset(Without(s, i)) + multiset{s[i]}
    ensures multiset(Targets(s)) == multiset(Targets(Without(s, i))) + multiset{s[i].target}
  {
    assert s == s[..i] + [s[i]] + s[i + 1..];
    assert Targets(s) == Targets(s[..i]) + [s[i].target] + Targets(s[i + 1..]);
    assert Targets(Without(s, i)) == Targets(s[..i]) + Targets(s[i + 1..]);
  }

  lemma {:induction false} TargetsDetermined(a: seq<CallInfo>, b: seq<CallInfo>)
    requires multiset(a) == multiset(b)
    ensures multiset(Targets(a)) == multiset(Targets(b))
  {
    if a == [] {
      assert |b| == |multiset(b)| == 0;
    } else {
      assert a[0] in multiset(b);
      var i :| 0 <= i < |b| && b[i] == a[0];
      RemoveOne(a, 0);
      RemoveOne(b, i);
      assert multiset(Without(a, 0)) == multiset(a) - multiset{a[0]};
      assert multiset(Without(b, i)) == multiset(b) - multiset{a[0]};
      TargetsDetermined(Without(a, 0), Without(b, i));
    }
  }
}
