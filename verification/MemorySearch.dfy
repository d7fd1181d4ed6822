/** The `search`, `findnext` and `findprior` commands: a pattern search over the bus and
    a cursor that walks its matches around the address space. */
module MemorySearch {
  import opened Modular
  import opened Machine
  import opened Options

  datatype Message = Usage | Found(addr: Word32) | NotFound | NoPrevious | NoFurther | NoPrior

  const NONE: Word32 := 0xFFFF_FFFF

  /** The pattern lies at `i` without wrapping around the end of memory. */
  predicate MatchAt(m: seq<Byte>, p: seq<Byte>, i: int) {
    0 <= i && i + |p| <= |m| && m[i..i + |p|] == p
  }

  /** The matches at or above `i`, in ascending order. */
  function MatchesFrom(m: seq<Byte>, p: seq<Byte>, i: nat): (r: seq<Word32>)
    requires |m| < WORD32 && |p| > 0
    decreases |m| - i
  {
    if i >= |m| then []
    else (if MatchAt(m, p, i) then [i] else []) + MatchesFrom(m, p, i + 1)
  }

  function Matches(m: seq<Byte>, p: seq<Byte>): (r: seq<Word32>)
    requires |m| < WORD32 && |p| > 0
  {
    MatchesFrom(m, p, 0)
  }

  ghost predicate Ascending(s: seq<Word32>) {
    forall i, j :: 0 <= i < j < |s| ==> s[i] < s[j]
  }

  lemma {:induction false} MatchListed(m: seq<Byte>, p: seq<Byte>, i: nat, a: int)
    requires |m| < WORD32 && |p| > 0
    ensures a in MatchesFrom(m, p, i) <==> i <= a && MatchAt(m, p, a)
    decreases |m| - i
  {
    if i < |m| {
      MatchListed(m, p, i + 1, a);
    }
  }

  lemma {:induction false} AscendingCons(i: Word32, rest: seq<Word32>)
    requires Ascending(rest) && forall a :: a in rest ==> i < a
    ensures Ascending([i] + rest)
  {
    assert forall j :: 0 <= j < |rest| ==> rest[j] in rest;
  }

  lemma {:induction false} MatchesAscend(m: seq<Byte>, p: seq<Byte>, i: nat)
    requires |m| < WORD32 && |p| > 0
    ensures Ascending(MatchesFrom(m, p, i))
    decreases |m| - i
  {
    if i < |m| {
      var rest := MatchesFrom(m, p, i + 1);
      MatchesAscend(m, p, i + 1);
      forall a | a in rest
        ensures i < a
      {
        MatchListed(m, p, i + 1, a);
      }
      AscendingCons(i, rest);
    }
  }

  /** A match is a place where the pattern stands in memory, without wrapping around its end. */
  lemma {:induction false} MatchIs(m: seq<Byte>, p: seq<Byte>, a: Word32)
    ensures MatchAt(m, p, a) <==> a + |p| <= |m| && forall k :: a <= k < a + |p| ==> m[k] == p[k - a]
  {
    if a + |p| <= |m| {
      var s := m[a..a + |p|];
      assert forall k :: a <= k < a + |p| ==> m[k] == s[k - a];
      assert forall j :: 0 <= j < |p| ==> s[j] == m[a + j];
    }
  }

  /** `Matches` is the ascending list of all matches and nothing else. */
  lemma {:induction false} MatchesAre(m: seq<Byte>, p: seq<Byte>, i: nat)
    requires |m| < WORD32 && |p| > 0
    ensures forall a :: a in MatchesFrom(m, p, i) <==> i <= a && MatchAt(m, p, a)
    ensures Ascending(MatchesFrom(m, p, i))
  {
    forall a
      ensures a in MatchesFrom(m, p, i) <==> i <= a && MatchAt(m, p, a)
    {
      MatchListed(m, p, i, a);
    }
    MatchesAscend(m, p, i);
  }

  lemma {:induction false} MatchesSplit(m: seq<Byte>, p: seq<Byte>, i: nat)
    requires |m| < WORD32 && |p| > 0
    ensures MatchesFrom(m, p, i) == (if MatchAt(m, p, i) then [i] else []) + MatchesFrom(m, p, i + 1)
  {
    if i >= |m| {
      assert MatchesFrom(m, p, i + 1) == [];
    }
  }

  /** Nothing matches where the pattern no longer fits. */
  lemma {:induction false} NoMatchesAbove(m: seq<Byte>, p: seq<Byte>, i: nat)
    requires |m| < WORD32 && |p| > 0 && i + |p| > |m|
    ensures MatchesFrom(m, p, i) == []
    decreases |m| - i
  {
    if i < |m| {
      NoMatchesAbove(m, p, i + 1);
    }
  }

  function Reports(ms: seq<Word32>): (r: seq<Message>)
    ensures |r| == |ms|
  {
    seq<Message>(|ms|, i requires 0 <= i < |ms| => Found(ms[i]))
  }

  /** One step of the search loop. */
  lemma {:induction false} SeenGrows(m: seq<Byte>, p: seq<Byte>, i: Word32, seen: seq<Word32>)
    requires |m| < WORD32 && |p| > 0
    ensures seen + MatchesFrom(m, p, i) == (if MatchAt(m, p, i) then seen + [i] else seen) + MatchesFrom(m, p, i + 1)
    ensures Reports(seen + [i]) == Reports(seen) + [Found(i)]
  {
    MatchesSplit(m, p, i);
    var rest := MatchesFrom(m, p, i + 1);
    assert seen + ([i] + rest) == (seen + [i]) + rest && [] + rest == rest;
  }

  // ---- The circular order ----

  /** `i` steps up from `start` on a circle of `n` cells. */
  function Up(start: nat, i: nat, n: nat): (c: nat)
    requires start < n && i < n
    ensures c < n
  {
    if start + i < n then start + i else start + i - n
  }

  /** `i` steps down from `start`. */
  function Down(start: nat, i: nat, n: nat): (c: nat)
    requires start < n && i < n
    ensures c < n
  {
    if i <= start then start - i else start - i + n
  }

  /** Steps up from `from` to `to`. */
  function Ahead(from: nat, to: nat, n: nat): (d: nat)
    requires from < n && to < n
    ensures d < n && Up(from, d, n) == to && Down(to, d, n) == from
  {
    if from <= to then to - from else to - from + n
  }

  lemma {:induction false} MaskIsUpDown(start: nat, i: nat, n: int)
    requires BusSize(n) && start < n && i < n
    ensures Wrap(start + i) % n == Up(start, i, n)
    ensures Wrap(start - i) % n == Down(start, i, n)
  {
    WrapIsInvisible(start + i, n);
    WrapIsInvisible(start - i, n);
    ModUnique(start + i, if start + i < n then 0 else 1, Up(start, i, n), n);
    ModUnique(start - i, if i <= start then 0 else -1, Down(start, i, n), n);
  }

  /** Where `findnext` starts looking, after a last hit at `last`. */
  function UpStart(last: Word32, n: int): (s: nat)
    requires 0 < n && (last < n || last == NONE)
    ensures s < n
  {
    if last == NONE || last == n - 1 then 0 else last + 1
  }

  /** Where `findprior` starts looking. */
  function DownStart(last: Word32, n: int): (s: nat)
    requires 0 < n && (last < n || last == NONE)
    ensures s < n
  {
    if last == NONE || last == 0 then n - 1 else last - 1
  }

  lemma {:induction false} UpStartIs(last: Word32, n: int)
    requires BusSize(n) && (last < n || last == NONE)
    ensures UpStart(last, n) == if last == NONE then 0 else Wrap(last + 1) % n
  {
    if last < n && n > 1 {
      MaskIsUpDown(last, 1, n);
    }
  }

  lemma {:induction false} DownStartIs(last: Word32, n: int)
    requires BusSize(n) && (last < n || last == NONE)
    ensures DownStart(last, n) == if last == NONE then n - 1 else Wrap(last - 1) % n
  {
    if last < n && n > 1 {
      MaskIsUpDown(last, 1, n);
    }
  }

  /** `a` is the first match met going up from `start`, `start` itself included. */
  ghost predicate FirstUp(m: seq<Byte>, p: seq<Byte>, start: nat, a: Word32)
    requires start < |m| && |p| > 0
  {
    MatchAt(m, p, a) && forall b :: MatchAt(m, p, b) ==> Ahead(start, a, |m|) <= Ahead(start, b, |m|)
  }

  /** `a` is the first match met going down from `start`, `start` itself included. */
  ghost predicate FirstDown(m: seq<Byte>, p: seq<Byte>, start: nat, a: Word32)
    requires start < |m| && |p| > 0
  {
    MatchAt(m, p, a) && forall b :: MatchAt(m, p, b) ==> Ahead(a, start, |m|) <= Ahead(b, start, |m|)
  }

  /** What `findnext` prints when there is no match: its message only if the last cell it
      probes has room for the pattern. */
  function Missing(last: Word32, p: seq<Byte>, n: int): seq<Message>
    requires 0 < n < WORD32 && (last < n || last == NONE)
  {
    if Up(UpStart(last, n), n - 1, n) + |p| <= n then [NoFurther] else []
  }

  // ---- The commands ----

  /** The commands' two fields and their bus. */
  class Searcher {
    const bus: Bus
    var lastPattern: seq<Byte>
    var lastFound: Word32

    constructor (bus: Bus)
      requires bus.Valid()
      ensures Valid() && this.bus == bus && lastPattern == [] && lastFound == NONE
    {
      this.bus := bus;
      lastPattern, lastFound := [], NONE;
    }

    ghost predicate Valid()
      reads this
    {
      bus.Valid() && (lastFound == NONE || lastFound < bus.cells.Length)
    }

    ghost function Memory(): seq<Byte>
      reads bus.cells
    {
      bus.cells[..]
    }

    /** The byte-by-byte comparison the three commands share. */
    method Compare(p: seq<Byte>, i: Word32) returns (same: bool)
      requires bus.Valid() && i + |p| <= bus.cells.Length
      ensures same == MatchAt(Memory(), p, i)
    {
      var n := bus.cells.Length;
      for j := 0 to |p|
        invariant Memory()[i..i + j] == p[..j]
      {
        WrapIsInvisible(i + j, n);
        ModUnique(i + j, 0, i + j, n);
        assert Memory()[i..i + j + 1] == Memory()[i..i + j] + [Memory()[i + j]];
        if bus.Peek8(Wrap(i + j)) != p[j] {
          assert Memory()[i..i + |p|][j] != p[j];
          return false;
        }
      }
      assert p[..|p|] == p;
      return true;
    }

    /** `search` (and `searcha`, which only reads its pattern differently). */
    method Search(pattern: seq<Byte>) returns (out: seq<Message>)
      requires Valid()
      modifies this
      ensures Valid()
      ensures pattern == [] ==> out == [Usage] && unchanged(this)
      ensures pattern != [] ==>
                var ms := Matches(Memory(), pattern);
                && lastPattern == pattern
                && (ms == [] ==> out == [NotFound] && lastFound == NONE)
                && (ms != [] ==> out == Reports(ms) && lastFound == ms[0])
    {
      if pattern == [] { return [Usage]; }
      lastPattern := pattern;
      lastFound := NONE;
      out := [];
      var n := bus.cells.Length;
      ghost var m, ms := Memory(), Matches(Memory(), pattern);
      ghost var seen: seq<Word32> := [];
      var i: Word32 := 0;
      while i + |pattern| <= n
        invariant i <= n
        invariant seen + MatchesFrom(m, pattern, i) == ms
        invariant lastPattern == pattern && out == Reports(seen)
        invariant lastFound == if seen == [] then NONE else seen[0]
        invariant seen != [] ==> seen[0] < n
      {
        SeenGrows(m, pattern, i, seen);
        var same := Compare(pattern, i);
        if same {
          out := out + [Found(i)];
          if lastFound == NONE { lastFound := i; }
          seen := seen + [i];
        }
        i := i + 1;
      }
      NoMatchesAbove(m, pattern, i);
      assert seen == ms;
      assert ms != [] ==> lastFound != NONE;
      if lastFound == NONE { out := out + [NotFound]; }
    }

    /** The loop of `findnext`: probes every cell once, going up from `start`. `exhausted`
        tells whether the last probe ran and failed. */
    method ScanUp(p: seq<Byte>, start: Word32) returns (hit: Option<Word32>, exhausted: bool)
      requires Valid() && p != [] && start < bus.cells.Length
      ensures hit.Some? ==> FirstUp(Memory(), p, start, hit.value)
      ensures hit.None? ==> forall a :: !MatchAt(Memory(), p, a)
      ensures hit.None? ==> exhausted == (Up(start, |Memory()| - 1, |Memory()|) + |p| <= |Memory()|)
    {
      var n := bus.cells.Length;
      ghost var m := Memory();
      exhausted := false;
      var i: Word32 := 0;
      while i < n
        invariant i <= n
        invariant forall k :: 0 <= k < i ==> !MatchAt(m, p, Up(start, k, n))
        invariant exhausted == (i == n && Up(start, n - 1, n) + |p| <= n)
      {
        MaskIsUpDown(start, i, n);
        var curr: Word32 := Wrap(start + i) % n;
        if curr + |p| <= n {
          var same := Compare(p, curr);
          if same {
            assert Ahead(start, curr, n) == i;
            return Some(curr), false;
          }
          if i == n - 1 { exhausted := true; }
        }
        i := i + 1;
      }
      forall a: nat | a < n
        ensures !MatchAt(m, p, a)
      {
        assert Up(start, Ahead(start, a, n), n) == a;
      }
      return None, exhausted;
    }

    /** `findnext` */
    method FindNext() returns (out: seq<Message>)
      requires Valid()
      modifies this`lastFound
      ensures Valid()
      ensures lastPattern == [] ==> out == [NoPrevious] && lastFound == old(lastFound)
      ensures lastPattern != [] ==>
                var m, start := Memory(), UpStart(old(lastFound), bus.cells.Length);
                && ((exists a :: MatchAt(m, lastPattern, a)) ==>
                    FirstUp(m, lastPattern, start, lastFound) && out == [Found(lastFound)])
                && ((forall a :: !MatchAt(m, lastPattern, a)) ==>
                    && lastFound == old(lastFound)
                    && out == Missing(old(lastFound), lastPattern, |m|))
    {
      if lastPattern == [] { return [NoPrevious]; }
      var start: Word32 := if lastFound == NONE then 0 else Wrap(lastFound + 1) % bus.cells.Length;
      UpStartIs(lastFound, bus.cells.Length);
      var hit, exhausted := ScanUp(lastPattern, start);
      match hit
      case Some(curr) =>
        lastFound := curr;
        out := [Found(curr)];
      case None =>
        out := if exhausted then [NoFurther] else [];
    }

    /** The loop of `findprior`: probes every cell once, going down from `start`. */
    method ScanDown(p: seq<Byte>, start: Word32) returns (hit: Option<Word32>)
      requires Valid() && p != [] && start < bus.cells.Length
      ensures hit.Some? ==> FirstDown(Memory(), p, start, hit.value)
      ensures hit.None? ==> forall a :: !MatchAt(Memory(), p, a)
    {
      var n := bus.cells.Length;
      ghost var m := Memory();
      var i: Word32 := 0;
      while i < n
        invariant i <= n
        invariant forall k :: 0 <= k < i ==> !MatchAt(m, p, Down(start, k, n))
      {
        MaskIsUpDown(start, i, n);
        var curr: Word32 := Wrap(start - i) % n;
        if curr + |p| <= n {
          var same := Compare(p, curr);
          if same {
            assert Ahead(curr, start, n) == i;
            return Some(curr);
          }
        }
        i := i + 1;
      }
      forall a: nat | a < n
        ensures !MatchAt(m, p, a)
      {
        assert Down(start, Ahead(a, start, n), n) == a;
      }
      return None;
    }

    /** `findprior` */
    method FindPrior() returns (out: seq<Message>)
      requires Valid()
      modifies this`lastFound
      ensures Valid()
      ensures lastPattern == [] ==> out == [NoPrevious] && lastFound == old(lastFound)
      ensures lastPattern != [] ==>
                var m, start := Memory(), DownStart(old(lastFound), bus.cells.Length);
                && ((exists a :: MatchAt(m, lastPattern, a)) ==>
                    FirstDown(m, lastPattern, start, lastFound) && out == [Found(lastFound)])
                && ((forall a :: !MatchAt(m, lastPattern, a)) ==>
                    lastFound == old(lastFound) && out == [NoPrior])
    {
      if lastPattern == [] { return [NoPrevious]; }
      var mask := bus.cells.Length - 1;
      var start: Word32 := if lastFound == NONE then mask else Wrap(lastFound - 1) % bus.cells.Length;
      DownStartIs(lastFound, bus.cells.Length);
      var hit := ScanDown(lastPattern, start);
      match hit
      case Some(curr) =>
        lastFound := curr;
        out := [Found(curr)];
      case None =>
        out := [NoPrior];
    }
  }

  // ---- Walking the matches ----

  /** The index after `i` on a circle of `k` matches. */
  function After(i: nat, k: nat): nat
    requires i < k
  {
    if i + 1 < k then i + 1 else 0
  }

  /** From a match, `findnext` goes to the next match of the list, and from the last to the first. */
  lemma {:induction false} NextInList(m: seq<Byte>, p: seq<Byte>, i: nat, a: Word32)
    requires 0 < |m| < WORD32 && |p| > 0 && i < |Matches(m, p)|
    ensures Matches(m, p)[i] < |m|
    ensures FirstUp(m, p, UpStart(Matches(m, p)[i], |m|), a) <==> a == Matches(m, p)[After(i, |Matches(m, p)|)]
  {
    MatchesAre(m, p, 0);
    var ms := Matches(m, p);
    assert forall j :: 0 <= j < |ms| ==> ms[j] in ms;
    var start, next := UpStart(ms[i], |m|), ms[After(i, |ms|)];
    forall b | MatchAt(m, p, b)
      ensures Ahead(start, next, |m|) <= Ahead(start, b, |m|)
    {
      assert b in ms;
      var j :| 0 <= j < |ms| && ms[j] == b;
      assert j > i ==> ms[After(i, |ms|)] <= ms[j];
      assert j <= i ==> ms[0] <= ms[j] <= ms[i];
    }
    assert FirstUp(m, p, start, next);
    if FirstUp(m, p, start, a) {
      assert Ahead(start, a, |m|) == Ahead(start, next, |m|);
    }
  }

  /** A run of `findnext` commands over unchanged memory: each goes up from the last hit. */
  ghost predicate NextRun(m: seq<Byte>, p: seq<Byte>, run: seq<Word32>)
    requires |m| > 0 && |p| > 0
  {
    && (forall t :: 0 <= t < |run| ==> run[t] < |m|)
    && (forall t, u :: 0 <= t < u < |run| && u == t + 1 ==> FirstUp(m, p, UpStart(run[t], |m|), run[u]))
  }

  /** A run that starts at match number `i` is at match `i + t` after `t` commands, around the list. */
  lemma {:induction false} RunIsRotation(m: seq<Byte>, p: seq<Byte>, run: seq<Word32>, i: nat, t: nat)
    requires 0 < |m| < WORD32 && |p| > 0 && NextRun(m, p, run) && t < |run|
    requires i < |Matches(m, p)| && run[0] == Matches(m, p)[i]
    ensures run[t] == Matches(m, p)[(i + t) % |Matches(m, p)|]
  {
    var k := |Matches(m, p)|;
    if t == 0 {
      ModUnique(i, 0, i, k);
    } else {
      RunIsRotation(m, p, run, i, t - 1);
      var j := (i + (t - 1)) % k;
      NextInList(m, p, j, run[t]);
      ModSum(i + (t - 1), 1, k);
      ModUnique(j + 1, if j + 1 < k then 0 else 1, After(j, k), k);
    }
  }

  /** `(i + t) % k` for at most one turn. */
  function Slot(i: nat, t: nat, k: nat): (j: nat)
    requires i < k && t <= k
    ensures j < k
  {
    if i + t < k then i + t else i + t - k
  }

  lemma {:induction false} SlotIs(i: nat, t: nat, k: nat)
    requires i < k && t <= k
    ensures (i + t) % k == Slot(i, t, k)
  {
    ModUnique(i + t, if i + t < k then 0 else 1, Slot(i, t, k), k);
  }

  lemma {:induction false} RunSlot(m: seq<Byte>, p: seq<Byte>, run: seq<Word32>, i: nat, t: nat)
    requires 0 < |m| < WORD32 && |p| > 0 && NextRun(m, p, run) && t < |run| <= |Matches(m, p)| + 1
    requires i < |Matches(m, p)| && run[0] == Matches(m, p)[i]
    ensures run[t] == Matches(m, p)[Slot(i, t, |Matches(m, p)|)]
  {
    RunIsRotation(m, p, run, i, t);
    SlotIs(i, t, |Matches(m, p)|);
  }

  lemma {:induction false} RunMeets(m: seq<Byte>, p: seq<Byte>, run: seq<Word32>, i: nat, a: Word32)
    requires 0 < |m| < WORD32 && |p| > 0 && NextRun(m, p, run) && |run| == |Matches(m, p)| + 1
    requires i < |Matches(m, p)| && run[0] == Matches(m, p)[i]
    ensures MatchAt(m, p, a) <==> a in run[1..]
  {
    var ms, k := Matches(m, p), |Matches(m, p)|;
    MatchesAre(m, p, 0);
    if MatchAt(m, p, a) {
      assert a in ms;
      var j :| 0 <= j < k && ms[j] == a;
      var t := if j > i then j - i else j + k - i;
      RunSlot(m, p, run, i, t);
      assert run[1..][t - 1] == run[t];
    }
    if a in run[1..] {
      var t :| 0 <= t < k && run[1..][t] == a;
      RunSlot(m, p, run, i, t + 1);
      assert ms[Slot(i, t + 1, k)] in ms;
    }
  }

  /** From any match, as many `findnext` commands as there are matches visit every match
      once and come back. */
  lemma {:induction false} RunVisitsAll(m: seq<Byte>, p: seq<Byte>, run: seq<Word32>)
    requires 0 < |m| < WORD32 && |p| > 0 && NextRun(m, p, run)
    requires |run| == |Matches(m, p)| + 1 && MatchAt(m, p, run[0])
    ensures run[|run| - 1] == run[0]
    ensures forall t, u :: 1 <= t < u < |run| ==> run[t] != run[u]
    ensures forall a :: MatchAt(m, p, a) <==> a in run[1..]
  {
    var ms, k := Matches(m, p), |Matches(m, p)|;
    MatchesAre(m, p, 0);
    assert run[0] in ms;
    var i :| 0 <= i < k && ms[i] == run[0];
    RunSlot(m, p, run, i, k);
    forall t, u | 1 <= t < u < |run|
      ensures run[t] != run[u]
    {
      RunSlot(m, p, run, i, t);
      RunSlot(m, p, run, i, u);
      assert Slot(i, t, k) != Slot(i, u, k);
    }
    forall a
      ensures MatchAt(m, p, a) <==> a in run[1..]
    {
      if 0 <= a < WORD32 {
        RunMeets(m, p, run, i, a);
      }
    }
  }

  /** `findprior` undoes `findnext` on the matches, and the other way round. */
  lemma {:induction false} PriorInvertsNext(m: seq<Byte>, p: seq<Byte>, a: Word32, b: Word32)
    requires 0 < |m| < WORD32 && |p| > 0 && MatchAt(m, p, a) && MatchAt(m, p, b)
    ensures FirstUp(m, p, UpStart(a, |m|), b) <==> FirstDown(m, p, DownStart(b, |m|), a)
  {
    var n := |m|;
    if FirstUp(m, p, UpStart(a, n), b) {
      forall c | MatchAt(m, p, c)
        ensures Ahead(a, DownStart(b, n), n) <= Ahead(c, DownStart(b, n), n)
      {
        assert Ahead(UpStart(a, n), b, n) <= Ahead(UpStart(a, n), c, n);
      }
    }
    if FirstDown(m, p, DownStart(b, n), a) {
      forall c | MatchAt(m, p, c)
        ensures Ahead(UpStart(a, n), b, n) <= Ahead(UpStart(a, n), c, n)
      {
        assert Ahead(a, DownStart(b, n), n) <= Ahead(c, DownStart(b, n), n);
      }
    }
  }

  /** Exactly the matches, and none outside `low` and `high`. */
  ghost predicate Between(m: seq<Byte>, p: seq<Byte>, low: Word32, high: Word32)
    requires |p| > 0
  {
    MatchAt(m, p, low) && MatchAt(m, p, high) && forall b :: MatchAt(m, p, b) ==> low <= b <= high
  }

  lemma {:induction false} MatchesBetween(m: seq<Byte>, p: seq<Byte>, ms: seq<Word32>)
    requires 0 < |m| < WORD32 && |p| > 0 && ms == Matches(m, p) && ms != []
    ensures Between(m, p, ms[0], ms[|ms| - 1])
  {
    MatchesAre(m, p, 0);
    assert forall j :: 0 <= j < |ms| ==> ms[j] in ms;
    forall b | MatchAt(m, p, b)
      ensures ms[0] <= b <= ms[|ms| - 1]
    {
      assert b in ms;
    }
  }

  lemma {:induction false} FreshUp(m: seq<Byte>, p: seq<Byte>, low: Word32, high: Word32, a: Word32)
    requires 0 < |m| < WORD32 && |p| > 0 && Between(m, p, low, high)
    ensures FirstUp(m, p, 0, a) <==> a == low
  {
    if FirstUp(m, p, 0, a) {
      assert Ahead(0, a, |m|) <= Ahead(0, low, |m|);
    }
  }

  lemma {:induction false} FreshDown(m: seq<Byte>, p: seq<Byte>, low: Word32, high: Word32, a: Word32)
    requires 0 < |m| < WORD32 && |p| > 0 && Between(m, p, low, high)
    ensures FirstDown(m, p, |m| - 1, a) <==> a == high
  {
    if FirstDown(m, p, |m| - 1, a) {
      assert Ahead(a, |m| - 1, |m|) <= Ahead(high, |m| - 1, |m|);
    }
  }

  /** From no hit, `findnext` starts at the first match and `findprior` at the last. */
  lemma {:induction false} FreshCursor(m: seq<Byte>, p: seq<Byte>, a: Word32)
    requires 0 < |m| < WORD32 && |p| > 0 && Matches(m, p) != []
    ensures var ms := Matches(m, p);
            && (FirstUp(m, p, UpStart(NONE, |m|), a) <==> a == ms[0])
            && (FirstDown(m, p, DownStart(NONE, |m|), a) <==> a == ms[|ms| - 1])
  {
    var ms := Matches(m, p);
    MatchesBetween(m, p, ms);
    FreshUp(m, p, ms[0], ms[|ms| - 1], a);
    FreshDown(m, p, ms[0], ms[|ms| - 1], a);
  }

  /** With no match left `findnext` means to say so, but prints nothing at all exactly when
      the pattern does not fit behind the last hit; after a search that found nothing that is
      every pattern of two bytes or more. */
  lemma {:induction false} SilentExactly(n: int, p: seq<Byte>, last: Word32)
    requires 0 < n < WORD32 && |p| > 0 && (last < n || last == NONE)
    ensures Missing(last, p, n) == [] <==> if last == NONE then |p| >= 2 else last + |p| > n
  {
  }
}
