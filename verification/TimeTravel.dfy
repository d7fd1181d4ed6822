/** Reverse execution: every traced instruction leaves an entry with the old program counter,
    the old registers and the old values of the bytes it stored, and a back step undoes the
    newest entry. The bytes a back step restores go through the same observed bus. */
module TimeTravel {
  import opened Machine
  import opened Modular
  import opened Options
  import opened TraceRing

  /** A recorded store: the masked address and the value it replaced. */
  datatype Write = Write(addr: Word32, before: Byte)

  datatype Entry = Entry(addr: Word32, regs: map<string, Word32>, writes: seq<Write>)

  /** What one instruction does: the stores in order, and the CPU state it ends in. */
  datatype Effect = Effect(stores: seq<(Word32, Byte)>, cpu: CpuState)

  datatype Session = Session(mem: Memory, cpu: CpuState, trace: seq<Entry>)

  // ---- The observed machine ----

  function Appended(trace: seq<Entry>, writes: seq<Write>): (t: seq<Entry>)
    ensures |t| == |trace|
  {
    if trace == [] then trace
    else
      var last := trace[|trace| - 1];
      trace[|trace| - 1 := last.(writes := last.writes + writes)]
  }

  function RecordOf(m: Memory, addr: Word32): Write
    requires BusSize(|m|)
  {
    Write(addr % |m|, Peek(m, addr))
  }

  lemma {:induction false} AppendedIs(trace: seq<Entry>, t: seq<Entry>, writes: seq<Write>)
    requires trace != [] && t == trace[|trace| - 1 := trace[|trace| - 1].(writes := trace[|trace| - 1].writes + writes)]
    ensures t == Appended(trace, writes)
  {
  }

  /** `write8` with the debugger as observer. */
  function Observed(s: Session, addr: Word32, v: Byte): (t: Session)
    requires BusSize(|s.mem|)
    ensures |t.mem| == |s.mem| && |t.trace| == |s.trace|
  {
    Session(Poke(s.mem, addr, v), s.cpu, Appended(s.trace, [RecordOf(s.mem, addr)]))
  }

  function ObservedAll(s: Session, stores: seq<(Word32, Byte)>): (t: Session)
    requires BusSize(|s.mem|)
    ensures |t.mem| == |s.mem| && |t.trace| == |s.trace|
  {
    if stores == [] then s
    else
      var n := |stores| - 1;
      Observed(ObservedAll(s, stores[..n]), stores[n].0, stores[n].1)
  }

  /** The registers an entry captures. */
  function Captured(regs: map<string, Word32>, visible: set<string>): map<string, Word32> {
    map name | name in regs && name in visible :: regs[name]
  }

  const MAX_RAW_REGS := 24

  const MAX_CPU_STATE := 64

  datatype RegDescriptor = RegDescriptor(name: string, internal: bool)

  /** The registers that are not internal, in the CPU's order. */
  function ShownNames(descs: seq<RegDescriptor>): (names: seq<string>)
    ensures |names| <= |descs|
  {
    if descs == [] then []
    else
      var n := |descs| - 1;
      ShownNames(descs[..n]) + if descs[n].internal then [] else [descs[n].name]
  }

  /** An entry has room for the CPU's whole state image. */
  predicate ImageFits(stateSize: nat) {
    0 < stateSize <= MAX_CPU_STATE
  }

  /** The registers an entry captures: all shown ones from a state image that fits, otherwise
      the values of the first 24. */
  function CapturedNames(descs: seq<RegDescriptor>, stateSize: nat): seq<string> {
    var names := ShownNames(descs);
    if ImageFits(stateSize) || |names| <= MAX_RAW_REGS then names else names[..MAX_RAW_REGS]
  }

  function NameSet(names: seq<string>): (s: set<string>)
    ensures forall name :: name in s <==> name in names
  {
    set name | name in names
  }

  /** With distinct names: every shown register is captured exactly if the state image fits or
      there are at most 24 of them. */
  lemma {:induction false} AllCapturedExactly(descs: seq<RegDescriptor>, stateSize: nat)
    requires Distinct(ShownNames(descs))
    ensures NameSet(CapturedNames(descs, stateSize)) == NameSet(ShownNames(descs))
            <==> 0 < stateSize <= 64 || |ShownNames(descs)| <= 24
    ensures CapturedNames(descs, stateSize) == ShownNames(descs)
            || CapturedNames(descs, stateSize) + ShownNames(descs)[24..] == ShownNames(descs)
  {
    var names := ShownNames(descs);
    if !ImageFits(stateSize) && |names| > MAX_RAW_REGS {
      NotInFront(names, MAX_RAW_REGS);
      assert names[MAX_RAW_REGS] in NameSet(names);
    }
  }

  /** The shown registers are those that are not internal. */
  lemma {:induction false} ShownAre(descs: seq<RegDescriptor>, name: string)
    ensures name in ShownNames(descs) <==> RegDescriptor(name, false) in descs
  {
    if descs != [] {
      var n := |descs| - 1;
      ShownAre(descs[..n], name);
      assert descs == descs[..n] + [descs[n]];
    }
  }

  predicate Distinct(names: seq<string>) {
    forall i, j :: 0 <= i < j < |names| ==> names[i] != names[j]
  }

  lemma {:induction false} NotInFront(names: seq<string>, k: nat)
    requires Distinct(names) && k < |names|
    ensures names[k] !in names[..k]
  {
    forall i | 0 <= i < k
      ensures names[..k][i] != names[k]
    {
      assert names[i] != names[k];
    }
  }

  /** One more register in the capture loop. */
  lemma {:induction false} CapturedNamesSnoc(descs: seq<RegDescriptor>, stateSize: nat, i: nat)
    requires i < |descs|
    ensures var taken := CapturedNames(descs[..i], stateSize);
            CapturedNames(descs[..i + 1], stateSize)
            == if descs[i].internal || (!ImageFits(stateSize) && |taken| >= MAX_RAW_REGS) then taken
              else taken + [descs[i].name]
  {
    assert descs[..i + 1][..i] == descs[..i];
  }

  lemma {:induction false} CapturedSnoc(regs: map<string, Word32>, names: seq<string>, name: string)
    ensures Captured(regs, NameSet(names + [name]))
            == if name in regs then Captured(regs, NameSet(names))[name := regs[name]]
              else Captured(regs, NameSet(names))
  {
  }

  /** `onStep`: a new entry, before the instruction executes. */
  function Begun(s: Session, visible: set<string>, cap: nat): Session {
    s.(trace := LastOf(s.trace + [Entry(s.cpu.pc, Captured(s.cpu.regs, visible), [])], cap))
  }

  function Step(s: Session, e: Effect, visible: set<string>, cap: nat): (t: Session)
    requires BusSize(|s.mem|)
    ensures |t.mem| == |s.mem|
  {
    ObservedAll(Begun(s, visible, cap), e.stores).(cpu := e.cpu)
  }

  /** The stores that undo recorded writes, last write first. */
  function UndoStores(writes: seq<Write>): (stores: seq<(Word32, Byte)>)
    ensures |stores| == |writes|
  {
    if writes == [] then []
    else
      var n := |writes| - 1;
      [(writes[n].addr, writes[n].before)] + UndoStores(writes[..n])
  }

  /** Registers written back by name, then the program counter. */
  function Restored(cpu: CpuState, entry: Entry): (c: CpuState)
    ensures c.regs.Keys == cpu.regs.Keys
  {
    CpuState(entry.addr, map name | name in cpu.regs :: if name in entry.regs then entry.regs[name] else cpu.regs[name])
  }

  /** `reverseStep` */
  function Reverse(s: Session): (r: (bool, Session))
    requires BusSize(|s.mem|)
    ensures |r.1.mem| == |s.mem|
  {
    if s.trace == [] then (false, s)
    else
      var n := |s.trace| - 1;
      var t := ObservedAll(s.(trace := s.trace[..n]), UndoStores(s.trace[n].writes));
      (true, t.(cpu := Restored(t.cpu, s.trace[n])))
  }

  // ---- Memory and log of a list of stores ----

  function Stored(m: Memory, stores: seq<(Word32, Byte)>): (r: Memory)
    ensures |r| == |m|
  {
    if stores == [] then m
    else
      var n := |stores| - 1;
      Poke(Stored(m, stores[..n]), stores[n].0, stores[n].1)
  }

  /** What the observer records of them. */
  function Log(m: Memory, stores: seq<(Word32, Byte)>): (log: seq<Write>)
    requires BusSize(|m|)
    ensures |log| == |stores|
  {
    if stores == [] then []
    else
      var n := |stores| - 1;
      Log(m, stores[..n]) + [RecordOf(Stored(m, stores[..n]), stores[n].0)]
  }

  lemma {:induction false} StoredAppend(m: Memory, a: seq<(Word32, Byte)>, b: seq<(Word32, Byte)>)
    ensures Stored(m, a + b) == Stored(Stored(m, a), b)
    decreases |b|
  {
    if b == [] {
      assert a + b == a;
    } else {
      var n := |b| - 1;
      StoredAppend(m, a, b[..n]);
      assert (a + b)[..|a + b| - 1] == a + b[..n];
    }
  }

  lemma {:induction false} UndoSnoc(writes: seq<Write>, w: Write)
    ensures UndoStores(writes + [w]) == [(w.addr, w.before)] + UndoStores(writes)
  {
    assert (writes + [w])[..|writes|] == writes;
  }

  lemma {:induction false} UndoAppend(a: seq<Write>, b: seq<Write>)
    ensures UndoStores(a + b) == UndoStores(b) + UndoStores(a)
    decreases |b|
  {
    if b == [] {
      assert a + b == a && UndoStores(b) + UndoStores(a) == UndoStores(a);
    } else {
      var init, w := b[..|b| - 1], b[|b| - 1];
      UndoAppend(a, init);
      UndoSnoc(a + init, w);
      UndoSnoc(init, w);
      assert a + init + [w] == a + b && init + [w] == b;
    }
  }

  lemma {:induction false} PokeBack(m: Memory, addr: Word32, v: Byte)
    requires BusSize(|m|)
    ensures var w := RecordOf(m, addr); Poke(Poke(m, addr, v), w.addr, w.before) == m
  {
    ModUnique(addr % |m|, 0, addr % |m|, |m|);
  }

  /** Undoing what was recorded gives the old memory back. */
  lemma {:induction false} UndoOfLog(m: Memory, stores: seq<(Word32, Byte)>)
    requires BusSize(|m|)
    ensures Stored(Stored(m, stores), UndoStores(Log(m, stores))) == m
  {
    if stores != [] {
      var n := |stores| - 1;
      var init, last := stores[..n], stores[n];
      var before, w := Stored(m, init), RecordOf(Stored(m, init), last.0);
      assert Log(m, stores)[..n] == Log(m, init);
      var undo: (Word32, Byte) := (w.addr, w.before);
      StoredAppend(Stored(m, stores), [undo], UndoStores(Log(m, init)));
      PokeBack(before, last.0, last.1);
      assert [undo][..0] == [];
      assert Stored(Stored(m, stores), [undo]) == before;
      UndoOfLog(m, init);
    }
  }

  /** Some store hits the cell. */
  predicate Hit(stores: seq<(Word32, Byte)>, c: nat, n: nat)
    requires n > 0
  {
    exists i :: 0 <= i < |stores| && stores[i].0 % n == c
  }

  lemma {:induction false} HitSnoc(stores: seq<(Word32, Byte)>, c: nat, n: nat)
    requires n > 0 && stores != []
    ensures var k := |stores| - 1;
            Hit(stores, c, n) <==> Hit(stores[..k], c, n) || stores[k].0 % n == c
  {
    var k := |stores| - 1;
    assert forall i :: 0 <= i < k ==> stores[..k][i] == stores[i];
  }

  lemma {:induction false} StoredFrame(m: Memory, stores: seq<(Word32, Byte)>, c: nat)
    requires c < |m| && !Hit(stores, c, |m|)
    ensures Stored(m, stores)[c] == m[c]
  {
    if stores != [] {
      HitSnoc(stores, c, |m|);
      StoredFrame(m, stores[..|stores| - 1], c);
    }
  }

  /** Undoing a log in another memory gives the old value to every cell that was stored to,
      and leaves the others. */
  lemma {:induction false} UndoCell(m: Memory, stores: seq<(Word32, Byte)>, other: Memory, c: nat)
    requires BusSize(|m|) && |other| == |m| && c < |m|
    ensures Stored(other, UndoStores(Log(m, stores)))[c] == if Hit(stores, c, |m|) then m[c] else other[c]
    decreases |stores|
  {
    if stores != [] {
      var n := |stores| - 1;
      var init, last := stores[..n], stores[n];
      var w := RecordOf(Stored(m, init), last.0);
      var undo: (Word32, Byte) := (w.addr, w.before);
      assert Log(m, stores)[..n] == Log(m, init);
      StoredAppend(other, [undo], UndoStores(Log(m, init)));
      assert [undo][..0] == [];
      var other' := Poke(other, w.addr, w.before);
      assert Stored(other, [undo]) == other';
      UndoCell(m, init, other', c);
      HitSnoc(stores, c, |m|);
      ModUnique(last.0 % |m|, 0, last.0 % |m|, |m|);
      if !Hit(init, c, |m|) { StoredFrame(m, init, c); }
    }
  }

  // ---- Steps and back steps ----

  lemma {:induction false} AppendedTwice(trace: seq<Entry>, a: seq<Write>, b: seq<Write>)
    ensures Appended(Appended(trace, a), b) == Appended(trace, a + b)
    ensures Appended(trace, []) == trace
  {
    if trace != [] {
      var last := trace[|trace| - 1];
      assert last.writes + a + b == last.writes + (a + b);
      assert last.writes + [] == last.writes;
    }
  }

  lemma {:induction false} ObservedAllIs(s: Session, stores: seq<(Word32, Byte)>)
    requires BusSize(|s.mem|)
    ensures ObservedAll(s, stores) == Session(Stored(s.mem, stores), s.cpu, Appended(s.trace, Log(s.mem, stores)))
  {
    if stores == [] {
      AppendedTwice(s.trace, [], []);
    } else {
      var n := |stores| - 1;
      ObservedAllIs(s, stores[..n]);
      AppendedTwice(s.trace, Log(s.mem, stores[..n]), [RecordOf(Stored(s.mem, stores[..n]), stores[n].0)]);
    }
  }

  /** The entry a step leaves behind. */
  function EntryOf(m: Memory, cpu: CpuState, e: Effect, visible: set<string>): Entry
    requires BusSize(|m|)
  {
    Entry(cpu.pc, Captured(cpu.regs, visible), Log(m, e.stores))
  }

  lemma {:induction false} StepIs(s: Session, e: Effect, visible: set<string>, cap: nat)
    requires BusSize(|s.mem|) && cap > 0
    ensures Step(s, e, visible, cap)
            == Session(Stored(s.mem, e.stores), e.cpu, LastOf(s.trace + [EntryOf(s.mem, s.cpu, e, visible)], cap))
  {
    var blank := Entry(s.cpu.pc, Captured(s.cpu.regs, visible), []);
    var log := Log(s.mem, e.stores);
    ObservedAllIs(Begun(s, visible, cap), e.stores);
    assert [] + log == log;
    assert Appended(LastOf(s.trace + [blank], cap), log) == LastOf(s.trace + [blank.(writes := log)], cap);
  }

  lemma {:induction false} ReverseIs(s: Session)
    requires BusSize(|s.mem|) && s.trace != []
    ensures var n := |s.trace| - 1;
            var stores := UndoStores(s.trace[n].writes);
            Reverse(s) == (true, Session(Stored(s.mem, stores), Restored(s.cpu, s.trace[n]),
                                         Appended(s.trace[..n], Log(s.mem, stores))))
  {
    var n := |s.trace| - 1;
    ObservedAllIs(s.(trace := s.trace[..n]), UndoStores(s.trace[n].writes));
  }

  /** The registers agree as far as an entry captures them. */
  ghost predicate SameVisible(a: CpuState, b: CpuState, visible: set<string>) {
    && a.pc == b.pc && a.regs.Keys == b.regs.Keys
    && forall name :: name in a.regs && name in visible ==> a.regs[name] == b.regs[name]
  }

  /** One back step after one step: the memory, the program counter and the captured
      registers are the old ones, and the other registers stay. */
  lemma {:induction false} BackstepUndoesStep(s: Session, e: Effect, visible: set<string>, cap: nat)
    requires BusSize(|s.mem|) && cap > 0 && e.cpu.regs.Keys == s.cpu.regs.Keys
    ensures var r := Reverse(Step(s, e, visible, cap));
            && r.0 && r.1.mem == s.mem && SameVisible(r.1.cpu, s.cpu, visible)
            && (forall name :: name in s.cpu.regs && name !in visible ==> r.1.cpu.regs[name] == e.cpu.regs[name])
  {
    StepIs(s, e, visible, cap);
    ReverseIs(Step(s, e, visible, cap));
    UndoOfLog(s.mem, e.stores);
  }

  /** `backstep k` */
  function Back(s: Session, k: nat): (t: Session)
    requires BusSize(|s.mem|)
    ensures |t.mem| == |s.mem|
  {
    if k == 0 then s else Reverse(Back(s, k - 1)).1
  }

  // ---- Steps and back steps in any order ----

  datatype Action = Do(e: Effect) | Undo

  function Acted(s: Session, acts: seq<Action>, visible: set<string>, cap: nat): (t: Session)
    requires BusSize(|s.mem|)
    ensures |t.mem| == |s.mem|
  {
    if acts == [] then s
    else
      var before := Acted(s, acts[..|acts| - 1], visible, cap);
      match acts[|acts| - 1]
      case Do(e) => Step(before, e, visible, cap)
      case Undo => Reverse(before).1
  }

  /** What the trace knows about one cell: its value, and the value each entry would restore. */
  datatype CellTrace = CellTrace(value: Byte, olds: seq<Option<Byte>>)

  /** The value a list of stores leaves in a cell. */
  function LastStored(stores: seq<(Word32, Byte)>, c: nat, n: nat, v: Byte): Byte
    requires n > 0
  {
    if stores == [] then v
    else
      var k := |stores| - 1;
      if stores[k].0 % n == c then stores[k].1 else LastStored(stores[..k], c, n, v)
  }

  /** One step or back step, as far as one cell is concerned: an entry remembers the value it
      found if its instruction stores to the cell; undoing it restores that value, and makes
      the entry in front remember the undone one, unless it remembers something already. */
  function CellActed(t: CellTrace, a: Action, c: nat, n: nat, cap: nat): CellTrace
    requires n > 0
  {
    match a
    case Do(e) =>
      CellTrace(LastStored(e.stores, c, n, t.value),
                LastOf(t.olds + [if Hit(e.stores, c, n) then Some(t.value) else None], cap))
    case Undo =>
      if t.olds == [] then t
      else
        var k := |t.olds| - 1;
        (match t.olds[k]
         case None => t.(olds := t.olds[..k])
         case Some(old_) =>
           CellTrace(old_, if k > 0 && t.olds[k - 1].None? then t.olds[..k][k - 1 := Some(t.value)] else t.olds[..k]))
  }

  function CellRun(v: Byte, acts: seq<Action>, c: nat, n: nat, cap: nat): CellTrace
    requires n > 0
  {
    if acts == [] then CellTrace(v, [])
    else CellActed(CellRun(v, acts[..|acts| - 1], c, n, cap), acts[|acts| - 1], c, n, cap)
  }

  /** The value that undoing some writes restores in a cell: that of the first of them. */
  function Oldest(writes: seq<Write>, c: nat, n: nat): Option<Byte>
    requires n > 0
  {
    if writes == [] then None
    else
      var k := |writes| - 1;
      match Oldest(writes[..k], c, n)
      case Some(b) => Some(b)
      case None => if writes[k].addr % n == c then Some(writes[k].before) else None
  }

  lemma {:induction false} OldestAppend(a: seq<Write>, b: seq<Write>, c: nat, n: nat)
    requires n > 0
    ensures Oldest(a + b, c, n) == if Oldest(a, c, n).Some? then Oldest(a, c, n) else Oldest(b, c, n)
    decreases |b|
  {
    if b == [] {
      assert a + b == a;
    } else {
      var k := |b| - 1;
      OldestAppend(a, b[..k], c, n);
      assert (a + b)[..|a| + k] == a + b[..k];
    }
  }

  lemma {:induction false} StoredCell(m: Memory, stores: seq<(Word32, Byte)>, c: nat)
    requires c < |m|
    ensures Stored(m, stores)[c] == LastStored(stores, c, |m|, m[c])
  {
    if stores != [] {
      StoredCell(m, stores[..|stores| - 1], c);
    }
  }

  lemma {:induction false} OldestOfLog(m: Memory, stores: seq<(Word32, Byte)>, c: nat)
    requires BusSize(|m|) && c < |m|
    ensures Oldest(Log(m, stores), c, |m|) == if Hit(stores, c, |m|) then Some(m[c]) else None
  {
    if stores != [] {
      var k := |stores| - 1;
      var w := RecordOf(Stored(m, stores[..k]), stores[k].0);
      OldestOfLog(m, stores[..k], c);
      HitSnoc(stores, c, |m|);
      OldestAppend(Log(m, stores[..k]), [w], c, |m|);
      OldestOfOne(w, c, |m|);
      ModUnique(stores[k].0 % |m|, 0, stores[k].0 % |m|, |m|);
      if !Hit(stores[..k], c, |m|) { StoredFrame(m, stores[..k], c); }
    }
  }

  lemma {:induction false} OldestOfOne(w: Write, c: nat, n: nat)
    requires n > 0
    ensures Oldest([w], c, n) == if w.addr % n == c then Some(w.before) else None
  {
    assert [w][..0] == [];
  }

  lemma {:induction false} UndoneCell(m: Memory, writes: seq<Write>, c: nat)
    requires c < |m|
    ensures Stored(m, UndoStores(writes))[c] == match Oldest(writes, c, |m|) case Some(b) => b case None => m[c]
    ensures Hit(UndoStores(writes), c, |m|) <==> Oldest(writes, c, |m|).Some?
    decreases |writes|
  {
    if writes != [] {
      var k := |writes| - 1;
      var init, w := writes[..k], writes[k];
      var undo: (Word32, Byte) := (w.addr, w.before);
      var m' := Poke(m, w.addr, w.before);
      assert init + [w] == writes;
      UndoSnoc(init, w);
      StoredAppend(m, [undo], UndoStores(init));
      assert [undo][..0] == [] && Stored(m, [undo]) == m';
      UndoneCell(m', init, c);
      HitFirst(undo, UndoStores(init), c, |m|);
    }
  }

  lemma {:induction false} HitFirst(first: (Word32, Byte), rest: seq<(Word32, Byte)>, c: nat, n: nat)
    requires n > 0
    ensures Hit([first] + rest, c, n) <==> first.0 % n == c || Hit(rest, c, n)
  {
    var all := [first] + rest;
    assert all[0] == first;
    if Hit(rest, c, n) {
      var i :| 0 <= i < |rest| && rest[i].0 % n == c;
      assert all[i + 1] == rest[i];
    }
    if Hit(all, c, n) {
      var i :| 0 <= i < |all| && all[i].0 % n == c;
      if i > 0 { assert rest[i - 1] == all[i]; }
    }
  }

  /** The trace remembers of the cell what the entries' writes restore. */
  ghost predicate Remembers(trace: seq<Entry>, olds: seq<Option<Byte>>, c: nat, n: nat)
    requires n > 0
  {
    |trace| == |olds| && forall i :: 0 <= i < |trace| ==> Oldest(trace[i].writes, c, n) == olds[i]
  }

  lemma {:induction false} RemembersStep(trace: seq<Entry>, olds: seq<Option<Byte>>, entry: Entry, old_: Option<Byte>,
                                         c: nat, n: nat, cap: nat)
    requires n > 0 && Remembers(trace, olds, c, n) && Oldest(entry.writes, c, n) == old_
    ensures Remembers(LastOf(trace + [entry], cap), LastOf(olds + [old_], cap), c, n)
  {
    assert Remembers(trace + [entry], olds + [old_], c, n);
  }

  lemma {:induction false} RemembersUndo(trace: seq<Entry>, olds: seq<Option<Byte>>, log: seq<Write>, c: nat, n: nat)
    requires n > 0 && Remembers(trace, olds, c, n)
    ensures var k := |olds|;
            Remembers(Appended(trace, log),
                      if k > 0 && olds[k - 1].None? then olds[k - 1 := Oldest(log, c, n)] else olds, c, n)
  {
    if trace != [] {
      OldestAppend(trace[|trace| - 1].writes, log, c, n);
    }
  }

  lemma {:induction false} CellStep(s: Session, t: CellTrace, e: Effect, visible: set<string>, cap: nat, c: nat)
    requires BusSize(|s.mem|) && cap > 0 && c < |s.mem|
    requires s.mem[c] == t.value && Remembers(s.trace, t.olds, c, |s.mem|)
    ensures var s', t' := Step(s, e, visible, cap), CellActed(t, Do(e), c, |s.mem|, cap);
            s'.mem[c] == t'.value && Remembers(s'.trace, t'.olds, c, |s.mem|)
  {
    StepIs(s, e, visible, cap);
    StoredCell(s.mem, e.stores, c);
    OldestOfLog(s.mem, e.stores, c);
    RemembersStep(s.trace, t.olds, EntryOf(s.mem, s.cpu, e, visible),
                  if Hit(e.stores, c, |s.mem|) then Some(t.value) else None, c, |s.mem|, cap);
  }

  lemma {:induction false} CellBackValue(m: Memory, t: CellTrace, cap: nat, c: nat, k: nat, writes: seq<Write>)
    requires c < |m| && |t.olds| == k + 1 && m[c] == t.value && Oldest(writes, c, |m|) == t.olds[k]
    ensures Stored(m, UndoStores(writes))[c] == CellActed(t, Undo, c, |m|, cap).value
  {
    UndoneCell(m, writes, c);
  }

  lemma {:induction false} CellBackOlds(t: CellTrace, c: nat, n: nat, cap: nat, k: nat, front: seq<Option<Byte>>,
                                        log: Option<Byte>)
    requires n > 0 && |t.olds| == k + 1 && front == t.olds[..k]
    requires log == if t.olds[k].Some? then Some(t.value) else None
    ensures CellActed(t, Undo, c, n, cap).olds == if k > 0 && front[k - 1].None? then front[k - 1 := log] else front
  {
    if k > 0 && front[k - 1].None? && log.None? {
      assert front[k - 1 := log] == front;
    }
  }

  /** What a back step leaves in a cell, and what it makes the entry in front remember. */
  lemma {:induction false} CellBack(s: Session, t: CellTrace, cap: nat, c: nat, k: nat, log: seq<Write>)
    requires BusSize(|s.mem|) && c < |s.mem| && |s.trace| == k + 1
    requires s.mem[c] == t.value && Remembers(s.trace, t.olds, c, |s.mem|)
    requires log == Log(s.mem, UndoStores(s.trace[k].writes))
    ensures Stored(s.mem, UndoStores(s.trace[k].writes))[c] == CellActed(t, Undo, c, |s.mem|, cap).value
    ensures Remembers(Appended(s.trace[..k], log), CellActed(t, Undo, c, |s.mem|, cap).olds, c, |s.mem|)
  {
    CellBackValue(s.mem, t, cap, c, k, s.trace[k].writes);
    UndoneCell(s.mem, s.trace[k].writes, c);
    OldestOfLog(s.mem, UndoStores(s.trace[k].writes), c);
    CellBackOlds(t, c, |s.mem|, cap, k, t.olds[..k], Oldest(log, c, |s.mem|));
    RemembersUndo(s.trace[..k], t.olds[..k], log, c, |s.mem|);
  }

  lemma {:induction false} CellUndo(s: Session, t: CellTrace, cap: nat, c: nat)
    requires BusSize(|s.mem|) && c < |s.mem|
    requires s.mem[c] == t.value && Remembers(s.trace, t.olds, c, |s.mem|)
    ensures var s', t' := Reverse(s).1, CellActed(t, Undo, c, |s.mem|, cap);
            s'.mem[c] == t'.value && Remembers(s'.trace, t'.olds, c, |s.mem|)
  {
    if s.trace != [] {
      var k := |s.trace| - 1;
      ReverseIs(s);
      CellBack(s, t, cap, c, k, Log(s.mem, UndoStores(s.trace[k].writes)));
    }
  }

  /** In any order of steps and back steps, every cell goes its own way: the memory is what
      the automaton of the cell says, and so is what each entry would restore. */
  lemma {:induction false} EveryCellRuns(m: Memory, cpu: CpuState, acts: seq<Action>, visible: set<string>, cap: nat,
                                         c: nat)
    requires BusSize(|m|) && cap > 0 && c < |m|
    ensures var s, t := Acted(Session(m, cpu, []), acts, visible, cap), CellRun(m[c], acts, c, |m|, cap);
            s.mem[c] == t.value && Remembers(s.trace, t.olds, c, |m|)
  {
    if acts != [] {
      var init := acts[..|acts| - 1];
      EveryCellRuns(m, cpu, init, visible, cap, c);
      var s, t := Acted(Session(m, cpu, []), init, visible, cap), CellRun(m[c], init, c, |m|, cap);
      match acts[|acts| - 1]
      case Do(e) => CellStep(s, t, e, visible, cap, c);
      case Undo => CellUndo(s, t, cap, c);
    }
  }

  lemma {:induction false} RestoredIs(cpu: CpuState, old_: CpuState, entry: Entry, visible: set<string>)
    requires entry.addr == old_.pc && entry.regs == Captured(old_.regs, visible) && cpu.regs.Keys == old_.regs.Keys
    ensures SameVisible(Restored(cpu, entry), old_, visible)
  {
  }

  /** What the CPU should be: a stack of states that forgets the oldest ones. */
  datatype CpuStack = CpuStack(now: CpuState, olds: seq<CpuState>)

  function CpuRun(cpu: CpuState, acts: seq<Action>, cap: nat): CpuStack {
    if acts == [] then CpuStack(cpu, [])
    else
      var t := CpuRun(cpu, acts[..|acts| - 1], cap);
      match acts[|acts| - 1]
      case Do(e) => CpuStack(e.cpu, LastOf(t.olds + [t.now], cap))
      case Undo => if t.olds == [] then t else CpuStack(t.olds[|t.olds| - 1], t.olds[..|t.olds| - 1])
  }

  /** Each entry holds the program counter and the captured registers of its state. */
  ghost predicate Holds(trace: seq<Entry>, olds: seq<CpuState>, visible: set<string>, names: set<string>) {
    && |trace| == |olds|
    && forall i :: 0 <= i < |trace| ==>
         trace[i].addr == olds[i].pc && trace[i].regs == Captured(olds[i].regs, visible) && olds[i].regs.Keys == names
  }

  lemma {:induction false} HoldsStep(trace: seq<Entry>, olds: seq<CpuState>, visible: set<string>, names: set<string>,
                                     entry: Entry, old_: CpuState, cap: nat)
    requires Holds(trace, olds, visible, names)
    requires entry.addr == old_.pc && entry.regs == Captured(old_.regs, visible) && old_.regs.Keys == names
    ensures Holds(LastOf(trace + [entry], cap), LastOf(olds + [old_], cap), visible, names)
  {
    assert Holds(trace + [entry], olds + [old_], visible, names);
  }

  lemma {:induction false} CapturedSame(a: CpuState, b: CpuState, visible: set<string>)
    requires SameVisible(a, b, visible)
    ensures Captured(a.regs, visible) == Captured(b.regs, visible)
  {
  }

  lemma {:induction false} CpuStepBack(s: Session, t: CpuStack, visible: set<string>, names: set<string>)
    requires BusSize(|s.mem|) && s.trace != [] && Holds(s.trace, t.olds, visible, names) && s.cpu.regs.Keys == names
    ensures var k := |t.olds| - 1;
            SameVisible(Reverse(s).1.cpu, t.olds[k], visible) && Holds(Reverse(s).1.trace, t.olds[..k], visible, names)
  {
    ReverseIs(s);
    var k := |t.olds| - 1;
    RestoredIs(s.cpu, t.olds[k], s.trace[k], visible);
  }

  /** The CPU and the trace of a session are those of the stack. */
  ghost predicate CpuRight(s: Session, t: CpuStack, visible: set<string>, names: set<string>) {
    && SameVisible(s.cpu, t.now, visible) && t.now.regs.Keys == names && Holds(s.trace, t.olds, visible, names)
  }

  lemma {:induction false} CpuStep(s: Session, t: CpuStack, e: Effect, visible: set<string>, names: set<string>,
                                   cap: nat)
    requires BusSize(|s.mem|) && cap > 0 && e.cpu.regs.Keys == names && CpuRight(s, t, visible, names)
    ensures CpuRight(Step(s, e, visible, cap), CpuStack(e.cpu, LastOf(t.olds + [t.now], cap)), visible, names)
  {
    StepIs(s, e, visible, cap);
    CapturedSame(s.cpu, t.now, visible);
    HoldsStep(s.trace, t.olds, visible, names, EntryOf(s.mem, s.cpu, e, visible), t.now, cap);
  }

  /** In any order of steps and back steps, the program counter and the captured registers
      are those of that stack: back steps never restore a wrong CPU state. */
  lemma {:induction false} CpuAlwaysRight(m: Memory, cpu: CpuState, acts: seq<Action>, visible: set<string>, cap: nat)
    requires BusSize(|m|) && cap > 0
    requires forall i :: 0 <= i < |acts| && acts[i].Do? ==> acts[i].e.cpu.regs.Keys == cpu.regs.Keys
    ensures CpuRight(Acted(Session(m, cpu, []), acts, visible, cap), CpuRun(cpu, acts, cap), visible, cpu.regs.Keys)
  {
    if acts != [] {
      var init := acts[..|acts| - 1];
      CpuAlwaysRight(m, cpu, init, visible, cap);
      var s, t := Acted(Session(m, cpu, []), init, visible, cap), CpuRun(cpu, init, cap);
      match acts[|acts| - 1]
      case Do(e) => CpuStep(s, t, e, visible, cpu.regs.Keys, cap);
      case Undo =>
        if s.trace != [] { CpuStepBack(s, t, visible, cpu.regs.Keys); }
    }
  }

  // ---- A run, and back steps behind it ----

  /** The instructions of a run, then `k` back steps. */
  function ThenBack(es: seq<Effect>, k: nat): (acts: seq<Action>) {
    if k > 0 then ThenBack(es, k - 1) + [Undo]
    else if es == [] then [] else ThenBack(es[..|es| - 1], 0) + [Do(es[|es| - 1])]
  }

  /** `backstep k` after a run. */
  lemma {:induction false} BackIsActed(s: Session, es: seq<Effect>, k: nat, visible: set<string>, cap: nat)
    requires BusSize(|s.mem|)
    ensures Back(Acted(s, ThenBack(es, 0), visible, cap), k) == Acted(s, ThenBack(es, k), visible, cap)
  {
    if k > 0 {
      BackIsActed(s, es, k - 1, visible, cap);
      assert ThenBack(es, k)[..|ThenBack(es, k)| - 1] == ThenBack(es, k - 1);
    }
  }

  function MemAfter(m: Memory, es: seq<Effect>): (r: Memory)
    ensures |r| == |m|
  {
    if es == [] then m else Stored(MemAfter(m, es[..|es| - 1]), es[|es| - 1].stores)
  }

  lemma {:induction false} CellRunSnoc(v: Byte, acts: seq<Action>, a: Action, c: nat, n: nat, cap: nat)
    requires n > 0
    ensures CellRun(v, acts + [a], c, n, cap) == CellActed(CellRun(v, acts, c, n, cap), a, c, n, cap)
  {
    assert (acts + [a])[..|acts|] == acts;
  }

  /** What the entries of a run remember of a cell, if none is dropped. */
  function Olds(m: Memory, es: seq<Effect>, c: nat): (olds: seq<Option<Byte>>)
    requires c < |m|
    ensures |olds| == |es|
  {
    if es == [] then []
    else
      var init := es[..|es| - 1];
      Olds(m, init, c) + [if Hit(es[|es| - 1].stores, c, |m|) then Some(MemAfter(m, init)[c]) else None]
  }

  lemma {:induction false} OldsAt(m: Memory, es: seq<Effect>, c: nat, i: nat)
    requires c < |m| && i < |es|
    ensures Olds(m, es, c)[i] == if Hit(es[i].stores, c, |m|) then Some(MemAfter(m, es[..i])[c]) else None
  {
    if i < |es| - 1 {
      OldsAt(m, es[..|es| - 1], c, i);
      assert es[..|es| - 1][..i] == es[..i];
    }
  }

  lemma {:induction false} Forward(m: Memory, es: seq<Effect>, c: nat, cap: nat)
    requires c < |m| && cap > 0
    ensures CellRun(m[c], ThenBack(es, 0), c, |m|, cap) == CellTrace(MemAfter(m, es)[c], LastOf(Olds(m, es, c), cap))
  {
    if es != [] {
      var init, e := es[..|es| - 1], es[|es| - 1];
      Forward(m, init, c, cap);
      CellRunSnoc(m[c], ThenBack(init, 0), Do(e), c, |m|, cap);
      StoredCell(MemAfter(m, init), e.stores, c);
      LastOfSnoc(Olds(m, init, c), if Hit(e.stores, c, |m|) then Some(MemAfter(m, init)[c]) else None, cap);
    }
  }

  /** Which memory cell `c` comes from, on the way back to the one in front of instruction
      `i`: every second instruction from there on is undone, and the first of them that stored
      to the cell settles it. */
  function SourceOf(es: seq<Effect>, i: nat, c: nat, n: nat): (j: nat)
    requires n > 0 && i <= |es|
    ensures i <= j <= |es| && (j - i) % 2 == 0
    ensures j < |es| - 1 ==> Hit(es[j].stores, c, n)
    ensures forall k :: i <= k < j && (k - i) % 2 == 0 ==> !Hit(es[k].stores, c, n)
    decreases |es| - i
  {
    if i >= |es| - 1 || Hit(es[i].stores, c, n) then i else SourceOf(es, i + 2, c, n)
  }

  /** The value of the cell on the way back to the memory in front of instruction `i`. */
  function ValueAt(m: Memory, es: seq<Effect>, i: nat, c: nat): Byte
    requires c < |m| && i <= |es|
  {
    MemAfter(m, es[..SourceOf(es, i, c, |m|)])[c]
  }

  /** What the newest entry, that of instruction `i`, remembers of the cell: its own value, or
      the one undone last. */
  ghost predicate TopIs(value: Byte, top: Option<Byte>, m: Memory, es: seq<Effect>, c: nat, i: nat)
    requires c < |m| && i < |es|
  {
    if Hit(es[i].stores, c, |m|) then top == Some(MemAfter(m, es[..i])[c])
    else if i + 1 == |es| then top == None
    else if top.None? then value == ValueAt(m, es, i + 2, c)
    else top == Some(ValueAt(m, es, i + 2, c))
  }

  /** The cell's trace on the way back, in front of instruction `i`: its value, what the newest
      entry remembers, and the untouched ones of all entries. */
  ghost predicate BackState(t: CellTrace, m: Memory, es: seq<Effect>, c: nat, all: seq<Option<Byte>>, i: nat)
    requires c < |m| && i <= |es|
  {
    && t.value == ValueAt(m, es, i, c) && |t.olds| + |es| == |all| + i
    && (t.olds != [] ==> i > 0 && Untouched(t.olds, all) && TopIs(t.value, t.olds[|t.olds| - 1], m, es, c, i - 1))
  }

  /** The entries in front of the newest are those of the run. */
  predicate Untouched(olds: seq<Option<Byte>>, all: seq<Option<Byte>>)
    requires olds != []
  {
    |olds| <= |all| && forall j :: 0 <= j < |olds| - 1 ==> olds[j] == all[j]
  }

  lemma {:induction false} BackStart(m: Memory, es: seq<Effect>, c: nat, cap: nat)
    requires c < |m| && cap > 0
    ensures var all := LastOf(Olds(m, es, c), cap);
            BackState(CellTrace(MemAfter(m, es)[c], all), m, es, c, all, |es|)
  {
    assert es[..|es|] == es;
    if es != [] {
      OldsAt(m, es, c, |es| - 1);
      LastOfAt(Olds(m, es, c), cap, 0);
    }
  }

  lemma {:induction false} LastOfAt<T>(s: seq<T>, n: nat, k: nat)
    requires k < |s| && k < n
    ensures LastOf(s, n)[|LastOf(s, n)| - 1 - k] == s[|s| - 1 - k]
  {
  }

  /** An instruction that does not store to the cell leaves it. */
  lemma {:induction false} ValueKept(m: Memory, es: seq<Effect>, i: nat, c: nat)
    requires c < |m| && i < |es| && !Hit(es[i].stores, c, |m|)
    ensures MemAfter(m, es[..i + 1])[c] == MemAfter(m, es[..i])[c]
  {
    assert es[..i + 1][..i] == es[..i];
    StoredFrame(MemAfter(m, es[..i]), es[i].stores, c);
  }

  lemma {:induction false} ValueHere(m: Memory, es: seq<Effect>, i: nat, c: nat)
    requires c < |m| && i <= |es| && (i >= |es| - 1 || Hit(es[i].stores, c, |m|))
    ensures ValueAt(m, es, i, c) == MemAfter(m, es[..i])[c]
  {
  }

  lemma {:induction false} ValueBehind(m: Memory, es: seq<Effect>, i: nat, c: nat)
    requires c < |m| && i < |es| - 1 && !Hit(es[i].stores, c, |m|)
    ensures ValueAt(m, es, i, c) == ValueAt(m, es, i + 2, c)
  {
  }

  /** The newest instruction restores what was there, whether it stored to the cell or not. */
  lemma {:induction false} ValueNewest(m: Memory, es: seq<Effect>, c: nat, i: nat)
    requires c < |m| && i + 1 == |es|
    ensures ValueAt(m, es, i, c)
            == if Hit(es[i].stores, c, |m|) then MemAfter(m, es[..i])[c] else ValueAt(m, es, i + 1, c)
  {
    ValueHere(m, es, i, c);
    ValueHere(m, es, i + 1, c);
    if !Hit(es[i].stores, c, |m|) { ValueKept(m, es, i, c); }
  }

  lemma {:induction false} ValueOlder(m: Memory, es: seq<Effect>, c: nat, i: nat)
    requires c < |m| && i + 1 < |es|
    ensures ValueAt(m, es, i, c)
            == if Hit(es[i].stores, c, |m|) then MemAfter(m, es[..i])[c] else ValueAt(m, es, i + 2, c)
  {
    if Hit(es[i].stores, c, |m|) { ValueHere(m, es, i, c); } else { ValueBehind(m, es, i, c); }
  }

  lemma {:induction false} ValueBack(value: Byte, top: Option<Byte>, m: Memory, es: seq<Effect>, c: nat, i: nat)
    requires c < |m| && i < |es| && TopIs(value, top, m, es, c, i) && value == ValueAt(m, es, i + 1, c)
    ensures ValueAt(m, es, i, c) == if top.Some? then top.value else value
  {
    if i + 1 == |es| { ValueNewest(m, es, c, i); } else { ValueOlder(m, es, c, i); }
  }

  lemma {:induction false} TopNext(value: Byte, top: Option<Byte>, next: Option<Byte>, m: Memory, es: seq<Effect>,
                                   c: nat, i: nat)
    requires c < |m| && i + 1 < |es| && value == ValueAt(m, es, i + 2, c)
    requires next == if Hit(es[i].stores, c, |m|) then Some(MemAfter(m, es[..i])[c]) else None
    ensures TopIs(if top.Some? then top.value else value,
                  if next.None? && top.Some? then Some(value) else next, m, es, c, i)
  {
  }

  /** What the entry of instruction `i` remembers. */
  lemma {:induction false} OldsBack(m: Memory, es: seq<Effect>, c: nat, cap: nat, all: seq<Option<Byte>>, i: nat,
                                    j: nat)
    requires c < |m| && i < |es| && j < |all| && all == LastOf(Olds(m, es, c), cap) && |all| + i == |es| + j
    ensures all[j] == if Hit(es[i].stores, c, |m|) then Some(MemAfter(m, es[..i])[c]) else None
  {
    LastOfAt(Olds(m, es, c), cap, |es| - 1 - i);
    OldsAt(m, es, c, i);
  }

  /** A back step off one entry behind another. */
  lemma {:induction false} UndoFront(t: CellTrace, c: nat, n: nat, cap: nat, u: CellTrace, k: nat)
    requires n > 0 && |t.olds| == k + 2 && u == CellActed(t, Undo, c, n, cap)
    ensures |u.olds| == k + 1 && (forall j :: 0 <= j < k ==> u.olds[j] == t.olds[j])
    ensures u.olds[k] == if t.olds[k].None? && t.olds[k + 1].Some? then Some(t.value) else t.olds[k]
  {
  }

  lemma {:induction false} UndoValue(t: CellTrace, c: nat, n: nat, cap: nat, u: CellTrace)
    requires n > 0 && t.olds != [] && u == CellActed(t, Undo, c, n, cap)
    ensures var top := t.olds[|t.olds| - 1];
            |u.olds| == |t.olds| - 1 && u.value == if top.Some? then top.value else t.value
  {
  }

  lemma {:induction false} BackTop(t: CellTrace, m: Memory, es: seq<Effect>, c: nat, cap: nat, all: seq<Option<Byte>>,
                                   i: nat, u: CellTrace, k: nat)
    requires c < |m| && i < |es| && all == LastOf(Olds(m, es, c), cap) && BackState(t, m, es, c, all, i + 1)
    requires u == CellActed(t, Undo, c, |m|, cap) && |t.olds| == k + 2
    ensures |u.olds| == k + 1 && i > 0 && Untouched(u.olds, all) && TopIs(u.value, u.olds[k], m, es, c, i - 1)
  {
    UndoValue(t, c, |m|, cap, u);
    UndoFront(t, c, |m|, cap, u, k);
    OldsBack(m, es, c, cap, all, i - 1, k);
    TopNext(t.value, t.olds[k + 1], t.olds[k], m, es, c, i - 1);
  }

  lemma {:induction false} BackNext(t: CellTrace, m: Memory, es: seq<Effect>, c: nat, cap: nat, all: seq<Option<Byte>>,
                                    i: nat, u: CellTrace)
    requires c < |m| && i < |es| && all == LastOf(Olds(m, es, c), cap) && BackState(t, m, es, c, all, i + 1)
    requires u == CellActed(t, Undo, c, |m|, cap) && t.olds != []
    ensures BackState(u, m, es, c, all, i)
  {
    UndoValue(t, c, |m|, cap, u);
    ValueBack(t.value, t.olds[|t.olds| - 1], m, es, c, i);
    if |t.olds| > 1 { BackTop(t, m, es, c, cap, all, i, u, |t.olds| - 2); }
  }

  /** As many entries are left as the run left, less one for each back step. */
  lemma {:induction false} BackLeft(t: CellTrace, m: Memory, es: seq<Effect>, c: nat, cap: nat, all: seq<Option<Byte>>,
                                    i: nat)
    requires c < |m| && 0 < i <= |es| && |es| < cap + i && all == LastOf(Olds(m, es, c), cap)
             && BackState(t, m, es, c, all, i)
    ensures t.olds != []
  {
  }

  lemma {:induction false} BackwardNext(m: Memory, es: seq<Effect>, c: nat, cap: nat, all: seq<Option<Byte>>, i: nat,
                                        acts: seq<Action>, t: CellTrace)
    requires c < |m| && i < |es| && |es| < cap + i + 1 && all == LastOf(Olds(m, es, c), cap)
    requires t == CellRun(m[c], acts, c, |m|, cap) && BackState(t, m, es, c, all, i + 1)
    ensures BackState(CellRun(m[c], acts + [Undo], c, |m|, cap), m, es, c, all, i)
  {
    BackLeft(t, m, es, c, cap, all, i + 1);
    CellRunSnoc(m[c], acts, Undo, c, |m|, cap);
    BackNext(t, m, es, c, cap, all, i, CellActed(t, Undo, c, |m|, cap));
  }

  lemma {:induction false} Backward(m: Memory, es: seq<Effect>, c: nat, cap: nat, all: seq<Option<Byte>>, k: nat,
                                    i: nat, acts: seq<Action>)
    requires c < |m| && 0 < cap && k <= cap && i + k == |es| && all == LastOf(Olds(m, es, c), cap)
             && acts == ThenBack(es, k)
    ensures BackState(CellRun(m[c], acts, c, |m|, cap), m, es, c, all, i)
    decreases k
  {
    if k == 0 {
      Forward(m, es, c, cap);
      BackStart(m, es, c, cap);
    } else {
      var before := ThenBack(es, k - 1);
      Backward(m, es, c, cap, all, k - 1, i + 1, before);
      BackwardNext(m, es, c, cap, all, i, before, CellRun(m[c], before, c, |m|, cap));
    }
  }

  lemma {:induction false} BackwardValue(m: Memory, es: seq<Effect>, c: nat, cap: nat, k: nat, i: nat)
    requires c < |m| && 0 < cap && k <= cap && i + k == |es|
    ensures CellRun(m[c], ThenBack(es, k), c, |m|, cap).value == ValueAt(m, es, i, c)
  {
    Backward(m, es, c, cap, LastOf(Olds(m, es, c), cap), k, i, ThenBack(es, k));
  }

  /** What every cell holds after `backstep k`. */
  lemma {:induction false} BackstepCells(m: Memory, cpu: CpuState, es: seq<Effect>, visible: set<string>, cap: nat,
                                         k: nat, c: nat)
    requires BusSize(|m|) && cap > 0 && k <= |es| && k <= cap && c < |m|
    ensures Acted(Session(m, cpu, []), ThenBack(es, k), visible, cap).mem[c] == ValueAt(m, es, |es| - k, c)
  {
    EveryCellRuns(m, cpu, ThenBack(es, k), visible, cap, c);
    BackwardValue(m, es, c, cap, k, |es| - k);
  }

  /** `backstep k` after a run restores the memory in front of its last `k` instructions. */
  ghost predicate BackRestores(m: Memory, cpu: CpuState, es: seq<Effect>, visible: set<string>, cap: nat, k: nat)
    requires BusSize(|m|) && k <= |es|
  {
    Acted(Session(m, cpu, []), ThenBack(es, k), visible, cap).mem == MemAfter(m, es[..|es| - k])
  }

  /** Every cell is settled by a memory in which it had the value to be restored. */
  ghost predicate Settled(m: Memory, es: seq<Effect>, i: nat)
    requires i <= |es|
  {
    forall c :: 0 <= c < |m| ==> ValueAt(m, es, i, c) == MemAfter(m, es[..i])[c]
  }

  /** `backstep k` restores the memory exactly in that case. */
  lemma {:induction false} BackstepExactly(m: Memory, cpu: CpuState, es: seq<Effect>, visible: set<string>, cap: nat,
                                           k: nat)
    requires BusSize(|m|) && cap > 0 && k <= |es| && k <= cap
    ensures BackRestores(m, cpu, es, visible, cap, k) <==> Settled(m, es, |es| - k)
  {
    var r := Acted(Session(m, cpu, []), ThenBack(es, k), visible, cap).mem;
    forall c | 0 <= c < |m|
      ensures r[c] == ValueAt(m, es, |es| - k, c)
    {
      BackstepCells(m, cpu, es, visible, cap, k, c);
    }
  }

  /** The memories differ only in cells that were stored to. */
  predicate Confined(a: Memory, b: Memory, stores: seq<(Word32, Byte)>)
    requires |a| == |b|
  {
    forall c :: 0 <= c < |a| && a[c] != b[c] ==> Hit(stores, c, |a|)
  }

  /** The instruction behind instruction `i` changes only cells that instruction `i` stored to. */
  ghost predicate NextConfined(m: Memory, es: seq<Effect>, i: nat)
    requires i < |es| - 1
  {
    Confined(MemAfter(m, es[..i + 1]), MemAfter(m, es[..i + 2]), es[i].stores)
  }

  lemma {:induction false} SettledStep(m: Memory, es: seq<Effect>, i: nat)
    requires i < |es| - 1 && Settled(m, es, i + 2)
    ensures Settled(m, es, i) <==> NextConfined(m, es, i)
  {
    forall c | 0 <= c < |m|
      ensures ValueAt(m, es, i, c) == MemAfter(m, es[..i])[c]
              <==> (MemAfter(m, es[..i + 1])[c] != MemAfter(m, es[..i + 2])[c] ==> Hit(es[i].stores, c, |m|))
    {
      if !Hit(es[i].stores, c, |m|) {
        ValueKept(m, es, i, c);
        assert ValueAt(m, es, i + 2, c) == MemAfter(m, es[..i + 2])[c];
      }
    }
  }

  /** The memory `k` instructions back is settled. */
  ghost predicate SettledBack(m: Memory, es: seq<Effect>, k: nat)
    requires k <= |es|
  {
    Settled(m, es, |es| - k)
  }

  lemma {:induction false} SettledLate(m: Memory, es: seq<Effect>, k: nat)
    requires k <= |es| && k < 2
    ensures SettledBack(m, es, k)
  {
  }

  ghost predicate AllSettled(m: Memory, es: seq<Effect>, k: nat)
    requires k <= |es|
  {
    forall j :: 0 <= j <= k ==> SettledBack(m, es, j)
  }

  /** From instruction `i` on, every instruction but the first changes only cells that the one
      in front of it stored to. */
  ghost predicate AllConfined(m: Memory, es: seq<Effect>, i: nat) {
    forall j :: i <= j < |es| - 1 ==> NextConfined(m, es, j)
  }

  lemma {:induction false} AllSettledNext(m: Memory, es: seq<Effect>, k: nat)
    requires 0 < k <= |es|
    ensures AllSettled(m, es, k) <==> AllSettled(m, es, k - 1) && SettledBack(m, es, k)
  {
    if AllSettled(m, es, k) { assert forall j :: 0 <= j <= k - 1 ==> SettledBack(m, es, j); }
  }

  lemma {:induction false} AllConfinedNext(m: Memory, es: seq<Effect>, i: nat)
    requires i < |es| - 1
    ensures AllConfined(m, es, i) <==> AllConfined(m, es, i + 1) && NextConfined(m, es, i)
  {
  }

  lemma {:induction false} SettledBackStep(m: Memory, es: seq<Effect>, k: nat)
    requires 2 <= k <= |es| && SettledBack(m, es, k - 2)
    ensures SettledBack(m, es, k) <==> NextConfined(m, es, |es| - k)
  {
    SettledStep(m, es, |es| - k);
  }

  lemma {:induction false} AllSettledExactly(m: Memory, es: seq<Effect>, k: nat)
    requires k <= |es|
    ensures AllSettled(m, es, k) <==> AllConfined(m, es, |es| - k)
  {
    if k == 0 {
      SettledLate(m, es, 0);
    } else {
      AllSettledExactly(m, es, k - 1);
      AllSettledNext(m, es, k);
      if k == 1 {
        SettledLate(m, es, 1);
      } else {
        AllConfinedNext(m, es, |es| - k);
        if AllSettled(m, es, k - 1) { SettledBackStep(m, es, k); }
      }
    }
  }

  /** All of `backstep 0` up to `backstep k` restore the memory exactly if, behind each
      instruction stepped back to, the next one changes only cells that it stored to itself. */
  lemma {:induction false} BackstepsExactly(m: Memory, cpu: CpuState, es: seq<Effect>, visible: set<string>, cap: nat,
                                            k: nat)
    requires BusSize(|m|) && cap > 0 && k <= |es| && k <= cap
    ensures (forall j :: 0 <= j <= k ==> BackRestores(m, cpu, es, visible, cap, j))
            <==> AllConfined(m, es, |es| - k)
  {
    forall j | 0 <= j <= k
      ensures BackRestores(m, cpu, es, visible, cap, j) <==> SettledBack(m, es, j)
    {
      BackstepExactly(m, cpu, es, visible, cap, j);
    }
    AllSettledExactly(m, es, k);
  }

  /** A third back step can restore the memory that the second one failed to: two
      instructions that store nothing and one that stores a 5. */
  lemma {:induction false} ThirdBackstepRestores(cpu: CpuState, cap: nat)
    requires cap >= 3
    ensures var es := [Effect([], cpu), Effect([], cpu), Effect([(0, 5)], cpu)];
            BackRestores([0], cpu, es, {}, cap, 3) && !NextConfined([0], es, 1)
  {
    var m: Memory, es := [0], [Effect([], cpu), Effect([], cpu), Effect([(0, 5)], cpu)];
    var stores: seq<(Word32, Byte)> := [(0, 5)];
    BackstepCells(m, cpu, es, {}, cap, 3, 0);
    assert es[..1] == [Effect([], cpu)] && es[..1][..0] == [] && es[..0] == [];
    assert es[..2] == [Effect([], cpu), Effect([], cpu)] && es[..2][..1] == es[..1] && es[..3] == es;
    assert stores[..0] == [] && Stored(m, stores) == Poke(m, 0, 5);
    assert MemAfter(m, es[..1]) == m && MemAfter(m, es[..2]) == m;
    assert es[..3][..2] == es[..2] && MemAfter(m, es) == Stored(m, stores);
    assert SourceOf(es, 0, 0, 1) == 2;
  }

  /** Two back steps over an instruction that stores nothing and one that stores a 5: the 5 is
      back in memory. */
  lemma {:induction false} SecondBackstepRedoes(cpu: CpuState, cap: nat)
    requires cap >= 2
    ensures var es := [Effect([], cpu), Effect([(0, 5)], cpu)];
            Acted(Session([0], cpu, []), ThenBack(es, 2), {}, cap).mem == [5]
  {
    var m: Memory, es := [0], [Effect([], cpu), Effect([(0, 5)], cpu)];
    var stores: seq<(Word32, Byte)> := [(0, 5)];
    BackstepCells(m, cpu, es, {}, cap, 2, 0);
    assert es[..2] == es && es[..1] == [Effect([], cpu)] && es[..1][..0] == [];
    assert stores[..0] == [] && Stored(m, stores) == Poke(m, 0, 5) && MemAfter(m, es[..1]) == m;
    assert SourceOf(es, 0, 0, 1) == 2;
  }

  // ---- In place ----

  class Debugger {
    const trace: CircularBuffer<Entry>
    const bus: Bus
    const cpu: Cpu
    const descs: seq<RegDescriptor>
    const stateSize: nat

    constructor (trace: CircularBuffer<Entry>, bus: Bus, cpu: Cpu, descs: seq<RegDescriptor>, stateSize: nat)
      ensures this.trace == trace && this.bus == bus && this.cpu == cpu && this.descs == descs
              && this.stateSize == stateSize
    {
      this.trace, this.bus, this.cpu, this.descs, this.stateSize := trace, bus, cpu, descs, stateSize;
    }

    function Visible(): set<string> {
      NameSet(CapturedNames(descs, stateSize))
    }

    ghost predicate Valid()
      reads trace, trace.data
    {
      trace.State().Valid() && trace.data.Length > 0 && bus.Valid()
    }

    ghost function State(): Session
      requires Valid()
      reads trace, trace.data, bus.cells, cpu
    {
      Session(bus.cells[..], cpu.state, trace.State().Contents())
    }

    method OnMemoryWrite(addr: Word32, before: Byte)
      requires Valid()
      modifies trace.data
      ensures Valid()
      ensures State() == old(State()).(trace := Appended(old(State().trace), [Write(addr, before)]))
    {
      if trace.size > 0 {
        var current := trace.Back();
        trace.SetBack(current.(writes := current.writes + [Write(addr, before)]));
        AppendedIs(old(State().trace), State().trace, [Write(addr, before)]);
      }
    }

    method Write8(addr: Word32, v: Byte)
      requires Valid()
      modifies trace.data, bus.cells
      ensures Valid() && State() == Observed(old(State()), addr, v)
    {
      var before := bus.Peek8(addr);
      bus.Write8(addr, v);
      OnMemoryWrite(addr % bus.cells.Length, before);
    }

    /** The loop over the register descriptors. */
    method CaptureRegisters() returns (regs: map<string, Word32>)
      ensures regs == Captured(cpu.state.regs, Visible())
    {
      regs := map[];
      var taken: seq<string> := [];
      for i := 0 to |descs|
        invariant taken == CapturedNames(descs[..i], stateSize)
        invariant regs == Captured(cpu.state.regs, NameSet(taken))
      {
        CapturedNamesSnoc(descs, stateSize, i);
        if !descs[i].internal && (ImageFits(stateSize) || |taken| < MAX_RAW_REGS) {
          CapturedSnoc(cpu.state.regs, taken, descs[i].name);
          if descs[i].name in cpu.state.regs { regs := regs[descs[i].name := cpu.state.regs[descs[i].name]]; }
          taken := taken + [descs[i].name];
        }
      }
      assert descs[..|descs|] == descs;
    }

    method OnStep()
      requires Valid()
      modifies trace, trace.data
      ensures Valid() && State() == Begun(old(State()), Visible(), trace.data.Length)
    {
      var regs := CaptureRegisters();
      PushContents(trace.State(), Entry(cpu.state.pc, regs, []));
      trace.Push(Entry(cpu.state.pc, regs, []));
    }

    /** The loop over the captured registers, and the program counter. */
    method RestoreRegisters(entry: Entry)
      modifies cpu
      ensures cpu.state == Restored(old(cpu.state), entry)
    {
      var names := entry.regs.Keys;
      while names != {}
        invariant names <= entry.regs.Keys
        invariant cpu.state.regs.Keys == old(cpu.state).regs.Keys
        invariant forall name :: name in cpu.state.regs ==>
                                   cpu.state.regs[name] == if name in entry.regs && name !in names then entry.regs[name]
                                                           else old(cpu.state).regs[name]
        decreases |names|
      {
        var name :| name in names;
        cpu.RegWrite(name, entry.regs[name]);
        names := names - {name};
      }
      cpu.SetPc(entry.addr);
    }

    /** The loop over the recorded writes, last one first. */
    method UndoWrites(writes: seq<Write>)
      requires Valid()
      modifies trace.data, bus.cells
      ensures Valid() && State() == ObservedAll(old(State()), UndoStores(writes))
    {
      ghost var stores := UndoStores(writes);
      var i := |writes|;
      while i > 0
        invariant 0 <= i <= |writes|
        invariant Valid()
        invariant State() == ObservedAll(old(State()), stores[..|stores| - i])
      {
        i := i - 1;
        UndoAt(writes, i);
        assert stores[..|stores| - i][..|stores| - i - 1] == stores[..|stores| - i - 1];
        Write8(writes[i].addr, writes[i].before);
      }
      assert stores[..|stores|] == stores;
    }

    method ReverseStep() returns (done: bool)
      requires Valid()
      modifies trace, trace.data, bus.cells, cpu
      ensures Valid() && (done, State()) == Reverse(old(State()))
      ensures done == (old(trace.size) > 0) && trace.size == old(trace.size) - if done then 1 else 0
    {
      ghost var s := State();
      if trace.size > 0 { PopContents(trace.State(), trace.moved); }
      var popped := trace.PopBack();
      if popped.None? { return false; }
      assert State() == s.(trace := s.trace[..|s.trace| - 1]);
      UndoWrites(popped.value.writes);
      RestoreRegisters(popped.value);
      return true;
    }

    /** `k` of `size` entries have been stepped back. */
    ghost predicate SteppedBack(s: Session, size: nat, k: nat)
      reads trace, trace.data, bus.cells, cpu
    {
      Valid() && BusSize(|s.mem|) && k + trace.size == size && State() == Back(s, k)
    }

    /** One more back step of a `backstep`. */
    method BackOnce(ghost s: Session, ghost size: nat, ghost k: nat) returns (done: bool)
      requires SteppedBack(s, size, k)
      modifies trace, trace.data, bus.cells, cpu
      ensures done == (k < size) && SteppedBack(s, size, if done then k + 1 else k)
    {
      done := ReverseStep();
    }

    /** `backstep n` */
    method Backstep(n: int) returns (reversed: nat)
      requires Valid()
      modifies trace, trace.data, bus.cells, cpu
      ensures reversed == if n <= 0 then 0 else if n <= old(trace.size) then n else old(trace.size)
      ensures SteppedBack(old(State()), old(trace.size), reversed)
    {
      ghost var s, size := State(), trace.size;
      reversed := 0;
      for i := 0 to if n < 0 then 0 else n
        invariant reversed == i <= size
        invariant SteppedBack(s, size, i)
      {
        var done := BackOnce(s, size, i);
        if !done { break; }
        reversed := reversed + 1;
      }
    }
  }

  lemma {:induction false} UndoAt(writes: seq<Write>, i: nat)
    requires i < |writes|
    ensures UndoStores(writes)[|writes| - 1 - i] == (writes[i].addr, writes[i].before)
  {
    if i < |writes| - 1 {
      UndoAt(writes[..|writes| - 1], i);
    }
  }
}
