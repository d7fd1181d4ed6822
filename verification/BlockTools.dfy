/** The `copy` and `swap` commands, on ranges that may overlap and wrap around the bus. */
module BlockTools {
  import opened Modular
  import opened Machine

  // ---- copy ----

  method Copy(bus: Bus, src: Word32, dst: Word32, len: Word32)
    requires bus.Valid()
    modifies bus.cells
    ensures bus.cells[..] == PokeRange(old(bus.cells[..]), dst, PeekRange(old(bus.cells[..]), src, len))
  {
    ghost var m := bus.cells[..];
    ghost var data := PeekRange(m, src, len);
    var tmp := new Byte[len];
    for i := 0 to len
      invariant bus.cells[..] == m
      invariant forall j :: 0 <= j < i ==> tmp[j] == data[j]
    {
      tmp[i] := bus.PeekAt(src + i);
    }
    for i := 0 to len
      invariant bus.cells[..] == PokeRange(m, dst, data[..i])
      invariant forall j :: 0 <= j < len ==> tmp[j] == data[j]
    {
      PokeRangeSnoc(m, dst, data, i);
      bus.WriteAt(dst + i, tmp[i]);
    }
    assert data[..len] == data;
  }

  /** Addresses that share a cell from one base share one from every base. */
  lemma {:induction false} SameCell(a: int, b: int, i: int, j: int, n: int)
    requires 0 < n
    ensures Cell(a, i, n) == Cell(a, j, n) <==> Cell(b, i, n) == Cell(b, j, n)
  {
    ModEqual(a + i, a + j, n);
    ModEqual(b + i, b + j, n);
  }

  lemma {:induction false} SourceConsistent(m: seq<Byte>, src: int, dst: int, len: nat, j: nat, k: nat)
    requires |m| > 0 && j < len && k < len
    requires Cell(dst, j, |m|) == Cell(dst, k, |m|)
    ensures PeekRange(m, src, len)[j] == PeekRange(m, src, len)[k]
  {
    SameCell(dst, src, j, k, |m|);
    assert Peek(m, src + j) == m[Cell(src, j, |m|)] == m[Cell(src, k, |m|)] == Peek(m, src + k);
  }

  /** However the ranges overlap, and even if they are longer than the memory, the
      destination ends up with the original source bytes and nothing else changes. */
  lemma {:induction false} CopyMoves(m: seq<Byte>, src: int, dst: int, len: nat, i: nat, c: nat)
    requires c < |m|
    ensures var r := PokeRange(m, dst, PeekRange(m, src, len));
            && (i < len ==> Peek(r, dst + i) == Peek(m, src + i))
            && ((forall j :: 0 <= j < len ==> Cell(dst, j, |m|) != c) ==> r[c] == m[c])
  {
    var data := PeekRange(m, src, len);
    forall j, k | 0 <= j < len && 0 <= k < len && Cell(dst, j, |m|) == Cell(dst, k, |m|)
      ensures data[j] == data[k]
    {
      SourceConsistent(m, src, dst, len, j, k);
    }
    if i < len {
      PokeRangeConsistent(m, dst, data, i);
    }
    if forall j :: 0 <= j < len ==> Cell(dst, j, |m|) != c {
      PokeRangeFrame(m, dst, data, c);
    }
  }

  // ---- swap ----

  /** The memory and the saved bytes after `k` steps of the first loop of `swap`. */
  function FirstPass(m: seq<Byte>, a1: int, a2: int, k: nat): (r: (seq<Byte>, seq<Byte>))
    requires |m| > 0
    ensures |r.0| == |m| && |r.1| == k
  {
    if k == 0 then (m, [])
    else
      var (m', tmp) := FirstPass(m, a1, a2, k - 1);
      (Poke(m', a1 + k - 1, Peek(m', a2 + k - 1)), tmp + [Peek(m', a1 + k - 1)])
  }

  function Swapped(m: seq<Byte>, a1: int, a2: int, len: nat): (r: seq<Byte>)
    requires |m| > 0
    ensures |r| == |m|
  {
    var (m', tmp) := FirstPass(m, a1, a2, len);
    PokeRange(m', a2, tmp)
  }

  /** The first loop of `swap`. */
  method SavePass(bus: Bus, addr1: Word32, addr2: Word32, tmp: array<Byte>)
    requires bus.Valid() && tmp != bus.cells
    modifies bus.cells, tmp
    ensures bus.cells[..] == FirstPass(old(bus.cells[..]), addr1, addr2, tmp.Length).0
    ensures tmp[..] == FirstPass(old(bus.cells[..]), addr1, addr2, tmp.Length).1
  {
    ghost var m := bus.cells[..];
    for i := 0 to tmp.Length
      invariant bus.cells[..] == FirstPass(m, addr1, addr2, i).0
      invariant tmp[..i] == FirstPass(m, addr1, addr2, i).1
    {
      var v1 := bus.PeekAt(addr1 + i);
      var v2 := bus.PeekAt(addr2 + i);
      ghost var saved := tmp[..i];
      tmp[i] := v1;
      bus.WriteAt(addr1 + i, v2);
      assert tmp[..i + 1] == saved + [v1];
    }
    assert tmp[..tmp.Length] == tmp[..];
  }

  method Swap(bus: Bus, addr1: Word32, addr2: Word32, len: Word32)
    requires bus.Valid()
    modifies bus.cells
    ensures bus.cells[..] == Swapped(old(bus.cells[..]), addr1, addr2, len)
  {
    var tmp := new Byte[len];
    SavePass(bus, addr1, addr2, tmp);
    ghost var m, data := bus.cells[..], tmp[..];
    for i := 0 to len
      invariant bus.cells[..] == PokeRange(m, addr2, data[..i])
      invariant tmp[..] == data
    {
      PokeRangeSnoc(m, addr2, data, i);
      bus.WriteAt(addr2 + i, tmp[i]);
    }
    assert data[..len] == data;
  }

  /** How far the first range starts above the second, around the bus. */
  function Lead(a1: int, a2: int, n: int): (d: nat)
    requires n > 0
    ensures d < n
  {
    (a1 - a2) % n
  }

  /** Where cell `c` sits in a range that starts at `a`. */
  function Offset(a: int, c: int, n: int): (i: nat)
    requires n > 0
    ensures i < n
  {
    (c - a) % n
  }

  lemma {:induction false} OffsetCell(a: int, c: nat, n: int)
    requires c < n
    ensures Cell(a, Offset(a, c, n), n) == c
  {
    OffsetOf(a, c, n);
  }

  lemma {:induction false} CellIsAt(a: int, i: nat, n: int)
    requires i < n
    ensures Offset(a, Cell(a, i, n), n) == i
  {
    CellOffset(a, i, n);
  }

  /** Offset from the second base of a cell given by its offset from the first. */
  lemma {:induction false} LeadShift(a1: int, a2: int, i: nat, n: int)
    requires i < n
    ensures var d := Lead(a1, a2, n);
            && Cell(a1, i, n) == Cell(a2, if d + i < n then d + i else d + i - n, n)
            && Cell(a2, i, n) == Cell(a1, if i < d then i - d + n else i - d, n)
  {
    var d := Lead(a1, a2, n);
    var q := (a1 - a2) / n;
    assert a1 - a2 == q * n + d;
    var x := if d + i < n then d + i else d + i - n;
    assert a1 + i == (a2 + x) + (if d + i < n then q else q + 1) * n;
    ModAddMultiple(a2 + x, if d + i < n then q else q + 1, n);
    var y := if i < d then i - d + n else i - d;
    assert a2 + i == (a1 + y) + (if i < d then -q - 1 else -q) * n;
    ModAddMultiple(a1 + y, if i < d then -q - 1 else -q, n);
  }

  lemma {:induction false} PokeAt(m: seq<Byte>, a: int, k: nat, v: Byte, c: nat)
    requires k < |m| && c < |m|
    ensures Poke(m, a + k, v)[c] == if Offset(a, c, |m|) == k then v else m[c]
    ensures Peek(m, a + k) == m[Cell(a, k, |m|)]
  {
    CellIsAt(a, k, |m|);
    OffsetCell(a, c, |m|);
  }

  lemma {:induction false} SameBase(a1: int, a2: int, i: int, n: int)
    requires n > 0 && Lead(a1, a2, n) == 0
    ensures (a1 + i) % n == (a2 + i) % n
  {
    ModEqual(a1 + i, a2 + i, n);
    assert (a1 + i) - (a2 + i) == a1 - a2;
  }

  lemma {:induction false} FirstPassStill(m: seq<Byte>, a1: int, a2: int, k: nat)
    requires |m| > 0 && Lead(a1, a2, |m|) == 0
    ensures FirstPass(m, a1, a2, k).0 == m
    ensures FirstPass(m, a1, a2, k).1 == PeekRange(m, a1, k)
  {
    if k > 0 {
      FirstPassStill(m, a1, a2, k - 1);
      SameBase(a1, a2, k - 1, |m|);
    }
  }

  /** What step `j` of the first loop copies from the second range. Behind its own
      writes the loop re-reads them, so this repeats with period `Lead`. */
  lemma {:induction false} CopiedByte(m: seq<Byte>, a1: int, a2: int, j: nat)
    requires j < |m| && Lead(a1, a2, |m|) > 0
    ensures Peek(FirstPass(m, a1, a2, j).0, a2 + j) == m[Cell(a2, j % Lead(a1, a2, |m|), |m|)]
    decreases j, 1
  {
    var n, d := |m|, Lead(a1, a2, |m|);
    var y := if j < d then j - d + n else j - d;
    LeadShift(a1, a2, j, n);
    CellIsAt(a1, y, n);
    FirstPassCells(m, a1, a2, j, Cell(a2, j, n));
    PokeAt(FirstPass(m, a1, a2, j).0, a2, j, 0, Cell(a2, j, n));
    if j >= d {
      ModAddMultiple(j, -1, d);
      assert y % d == j % d;
    } else {
      ModUnique(j, 0, j, d);
    }
  }

  /** The first range after `k` steps of the first loop. */
  lemma {:induction false} FirstPassCells(m: seq<Byte>, a1: int, a2: int, k: nat, c: nat)
    requires k <= |m| && c < |m| && Lead(a1, a2, |m|) > 0
    ensures var i := Offset(a1, c, |m|);
            FirstPass(m, a1, a2, k).0[c] == if i < k then m[Cell(a2, i % Lead(a1, a2, |m|), |m|)] else m[c]
    decreases k, 0
  {
    if k > 0 {
      var m' := FirstPass(m, a1, a2, k - 1).0;
      CopiedByte(m, a1, a2, k - 1);
      FirstPassCells(m, a1, a2, k - 1, c);
      PokeAt(m', a1, k - 1, Peek(m', a2 + k - 1), c);
    }
  }

  lemma {:induction false} FirstPassSaves(m: seq<Byte>, a1: int, a2: int, k: nat)
    requires 0 < |m| && k <= |m|
    ensures FirstPass(m, a1, a2, k).1 == PeekRange(m, a1, k)
  {
    if Lead(a1, a2, |m|) == 0 {
      FirstPassStill(m, a1, a2, k);
    } else if k > 0 {
      var j := k - 1;
      FirstPassSaves(m, a1, a2, j);
      var c := Cell(a1, j, |m|);
      FirstPassCells(m, a1, a2, j, c);
      CellIsAt(a1, j, |m|);
      PokeAt(FirstPass(m, a1, a2, j).0, a1, j, 0, c);
      PokeAt(m, a1, j, 0, c);
    }
  }

  /** Every cell after `swap`, for ranges no longer than the memory, overlapping or not:
      the second range holds the first one's bytes; what is left of the first range
      holds the start of the second, repeated with period `Lead`. */
  lemma {:induction false} SwapCells(m: seq<Byte>, a1: int, a2: int, len: nat, c: nat)
    requires len <= |m| && c < |m|
    ensures var n := |m|;
            Swapped(m, a1, a2, len)[c] ==
            if Offset(a2, c, n) < len then m[Cell(a1, Offset(a2, c, n), n)]
            else if Offset(a1, c, n) < len && Lead(a1, a2, n) > 0
              then m[Cell(a2, Offset(a1, c, n) % Lead(a1, a2, n), n)]
            else m[c]
  {
    var (m', tmp) := FirstPass(m, a1, a2, len);
    FirstPassSaves(m, a1, a2, len);
    PokeRangeCells(m', a2, tmp, c);
    if Lead(a1, a2, |m|) > 0 {
      FirstPassCells(m, a1, a2, len, c);
    } else {
      FirstPassStill(m, a1, a2, len);
    }
    var j := Offset(a2, c, |m|);
    if j < len {
      PokeAt(m, a1, j, 0, c);
    }
  }

  lemma {:induction false} PokeSame(m: seq<Byte>, a: int)
    requires |m| > 0
    ensures Poke(m, a, Peek(m, a)) == m
  {
  }

  lemma {:induction false} PokeRangeSame(m: seq<Byte>, a1: int, a2: int, k: nat)
    requires |m| > 0 && Lead(a1, a2, |m|) == 0
    ensures PokeRange(m, a2, PeekRange(m, a1, k)) == m
  {
    if k > 0 {
      PokeRangeSame(m, a1, a2, k - 1);
      var data, i := PeekRange(m, a1, k), k - 1;
      assert data[..i] == PeekRange(m, a1, i);
      SameBase(a1, a2, i, |m|);
      assert data[i] == Peek(m, a1 + i) == Peek(m, a2 + i);
      PokeSame(m, a2 + i);
      assert PokeRange(m, a2, data) == Poke(m, a2 + i, data[i]);
    }
  }

  /** Ranges that start at the same cell are left alone, whatever their length. */
  lemma {:induction false} SwapSame(m: seq<Byte>, a1: int, a2: int, len: nat)
    requires |m| > 0 && Lead(a1, a2, |m|) == 0
    ensures Swapped(m, a1, a2, len) == m
  {
    FirstPassStill(m, a1, a2, len);
    PokeRangeSame(m, a1, a2, len);
  }

  // ---- When swap exchanges ----

  /** Each range ends up with the other one's bytes, and nothing else changes. */
  ghost predicate Exchanged(m: seq<Byte>, r: seq<Byte>, a1: int, a2: int, len: nat)
    requires |m| == |r| > 0
  {
    && (forall i :: 0 <= i < len ==> r[Cell(a1, i, |m|)] == m[Cell(a2, i, |m|)])
    && (forall i :: 0 <= i < len ==> r[Cell(a2, i, |m|)] == m[Cell(a1, i, |m|)])
    && (forall c :: 0 <= c < |m| && Offset(a1, c, |m|) >= len && Offset(a2, c, |m|) >= len ==> r[c] == m[c])
  }

  /** The second range ends up with the first one's bytes. */
  ghost predicate SecondGetsFirst(m: seq<Byte>, r: seq<Byte>, a1: int, a2: int, len: nat)
    requires |m| == |r| > 0
  {
    forall i :: 0 <= i < len ==> r[Cell(a2, i, |m|)] == m[Cell(a1, i, |m|)]
  }

  /** The ranges coincide, are disjoint, or sit exactly half a bus apart. */
  predicate Exchangeable(a1: int, a2: int, len: nat, n: int)
    requires n > 0
  {
    var d := Lead(a1, a2, n);
    d == 0 || (len <= d && len <= n - d) || (len <= n && 2 * d == n)
  }

  lemma {:induction false} SwapCellAtFirst(m: seq<Byte>, a1: int, a2: int, len: nat, i: nat)
    requires i < len <= |m| && Lead(a1, a2, |m|) > 0
    ensures var n, d := |m|, Lead(a1, a2, |m|);
            var j := if d + i < n then d + i else d + i - n;
            Swapped(m, a1, a2, len)[Cell(a1, i, n)] ==
            if j < len then m[Cell(a1, j, n)] else m[Cell(a2, i % d, n)]
  {
    var n, d := |m|, Lead(a1, a2, |m|);
    SwapCells(m, a1, a2, len, Cell(a1, i, n));
    CellIsAt(a1, i, n);
    LeadShift(a1, a2, i, n);
    CellIsAt(a2, if d + i < n then d + i else d + i - n, n);
  }

  lemma {:induction false} SwapCellAtSecond(m: seq<Byte>, a1: int, a2: int, len: nat, i: nat)
    requires i < len <= |m|
    ensures Swapped(m, a1, a2, len)[Cell(a2, i, |m|)] == m[Cell(a1, i, |m|)]
  {
    SwapCells(m, a1, a2, len, Cell(a2, i, |m|));
    CellIsAt(a2, i, |m|);
  }

  lemma {:induction false} FirstGetsSecond(m: seq<Byte>, a1: int, a2: int, len: nat, i: nat)
    requires i < len <= |m| && Lead(a1, a2, |m|) > 0 && Exchangeable(a1, a2, len, |m|)
    ensures Swapped(m, a1, a2, len)[Cell(a1, i, |m|)] == m[Cell(a2, i, |m|)]
  {
    var n, d := |m|, Lead(a1, a2, |m|);
    SwapCellAtFirst(m, a1, a2, len, i);
    if i < d {
      ModUnique(i, 0, i, d);
    }
    if 2 * d == n {
      LeadShift(a1, a2, i, n);
    }
  }

  lemma {:induction false} ExchangesWhen(m: seq<Byte>, a1: int, a2: int, len: nat)
    requires |m| > 0 && Exchangeable(a1, a2, len, |m|)
    ensures Exchanged(m, Swapped(m, a1, a2, len), a1, a2, len)
  {
    var r := Swapped(m, a1, a2, len);
    if Lead(a1, a2, |m|) == 0 {
      SwapSame(m, a1, a2, len);
      forall i | 0 <= i < len
        ensures Cell(a1, i, |m|) == Cell(a2, i, |m|)
      {
        SameBase(a1, a2, i, |m|);
      }
    } else {
      forall i | 0 <= i < len
        ensures r[Cell(a1, i, |m|)] == m[Cell(a2, i, |m|)] && r[Cell(a2, i, |m|)] == m[Cell(a1, i, |m|)]
      {
        FirstGetsSecond(m, a1, a2, len, i);
        SwapCellAtSecond(m, a1, a2, len, i);
      }
      forall c | 0 <= c < |m| && Offset(a1, c, |m|) >= len && Offset(a2, c, |m|) >= len
        ensures r[c] == m[c]
      {
        SwapCells(m, a1, a2, len, c);
      }
    }
  }

  /** A memory with a single nonzero cell. */
  function Marker(n: nat, at: nat): (m: seq<Byte>)
    requires at < n
    ensures |m| == n
  {
    seq<Byte>(n, c => if c == at then 1 else 0)
  }

  /** Once the marker in the first cell has been saved, the rest of the first loop sees zeros. */
  lemma {:induction false} MarkerPass(n: nat, a1: int, a2: int, k: nat, c: nat)
    requires c < n && 0 < k && Lead(a1, a2, n) > 0
    ensures var (m', tmp) := FirstPass(Marker(n, Cell(a1, 0, n)), a1, a2, k);
            && m'[c] == 0 && forall i :: 0 < i < k ==> tmp[i] == 0
  {
    var m := Marker(n, Cell(a1, 0, n));
    ModEqual(a1, a2, n);
    if k == 1 {
      assert FirstPass(m, a1, a2, 0) == (m, []);
    } else {
      MarkerPass(n, a1, a2, k - 1, c);
      MarkerPass(n, a1, a2, k - 1, Cell(a1, k - 1, n));
      MarkerPass(n, a1, a2, k - 1, Cell(a2, k - 1, n));
    }
  }

  /** Writing zeros past the end of a full circle leaves a zero in the cell they pass. */
  lemma {:induction false} ZeroStays(m: seq<Byte>, a: int, data: seq<Byte>, c: nat)
    requires c < |m| && (m[c] == 0 || exists i :: 0 <= i < |data| && Cell(a, i, |m|) == c)
    requires forall i :: 0 <= i < |data| ==> data[i] == 0
    ensures PokeRange(m, a, data)[c] == 0
  {
    if data != [] && Cell(a, |data| - 1, |m|) != c {
      ZeroStays(m, a, data[..|data| - 1], c);
    }
  }

  lemma {:induction false} PokeRangeSplit(m: seq<Byte>, a: int, data: seq<Byte>, k: nat)
    requires |m| > 0 && k <= |data|
    ensures PokeRange(m, a, data) == PokeRange(PokeRange(m, a, data[..k]), a + k, data[k..])
    decreases |data|
  {
    if k < |data| {
      var init := data[..|data| - 1];
      PokeRangeSplit(m, a, init, k);
      assert init[..k] == data[..k] && init[k..] == data[k..][..|data| - 1 - k];
    } else {
      assert data[..k] == data && data[k..] == [];
    }
  }

  /** Longer than the memory, `swap` writes the second range more than once and the
      marker is lost. */
  lemma {:induction false} LongSwapFails(n: nat, a1: int, a2: int, len: nat)
    requires 0 < n < len && Lead(a1, a2, n) > 0
    ensures var m := Marker(n, Cell(a1, 0, n));
            Swapped(m, a1, a2, len)[Cell(a2, 0, n)] == 0 && m[Cell(a1, 0, n)] == 1
  {
    var m, c := Marker(n, Cell(a1, 0, n)), Cell(a2, 0, n);
    var (m', tmp) := FirstPass(m, a1, a2, len);
    MarkerPass(n, a1, a2, len, c);
    PokeRangeSplit(m', a2, tmp, 1);
    ModAddMultiple(a2, 1, n);
    assert Cell(a2 + 1, n - 1, n) == c;
    ZeroStays(PokeRange(m', a2, tmp[..1]), a2 + 1, tmp[1..], c);
  }

  /** For every memory of `n` cells the second range receives the first one's bytes,
      exactly when the ranges fit the bus or start at the same cell. */
  lemma {:induction false} SecondGetsFirstExactly(n: nat, a1: int, a2: int, len: nat)
    requires n > 0
    ensures (forall m: seq<Byte> :: |m| == n ==> SecondGetsFirst(m, Swapped(m, a1, a2, len), a1, a2, len))
            <==> len <= n || Lead(a1, a2, n) == 0
  {
    if len <= n || Lead(a1, a2, n) == 0 {
      forall m: seq<Byte>, i | |m| == n && 0 <= i < len
        ensures Swapped(m, a1, a2, len)[Cell(a2, i, n)] == m[Cell(a1, i, n)]
      {
        if Lead(a1, a2, n) == 0 {
          SwapSame(m, a1, a2, len);
          SameBase(a1, a2, i, n);
        } else {
          SwapCellAtSecond(m, a1, a2, len, i);
        }
      }
    } else {
      var m := Marker(n, Cell(a1, 0, n));
      LongSwapFails(n, a1, a2, len);
      assert !SecondGetsFirst(m, Swapped(m, a1, a2, len), a1, a2, len);
    }
  }

  /** Two overlapping ranges demand two different things of a shared cell. */
  lemma {:induction false} OverlapFails(n: nat, a1: int, a2: int, len: nat)
    requires n > 0 && len <= n && !Exchangeable(a1, a2, len, n)
    ensures var d := Lead(a1, a2, n);
            var m := Marker(n, if len > d then Cell(a1, d, n) else Cell(a1, 0, n));
            !Exchanged(m, Swapped(m, a1, a2, len), a1, a2, len)
  {
    var d := Lead(a1, a2, n);
    if len > d {
      var m := Marker(n, Cell(a1, d, n));
      SwapCellAtSecond(m, a1, a2, len, d);
      LeadShift(a1, a2, d, n);
      LeadShift(a1, a2, 0, n);
      assert Cell(a2, d, n) == Cell(a1, 0, n) && Cell(a2, 0, n) == Cell(a1, n - d, n);
      CellIsAt(a1, d, n);
      CellIsAt(a1, n - d, n);
    } else {
      var m := Marker(n, Cell(a1, 0, n));
      SwapCellAtSecond(m, a1, a2, len, 0);
      LeadShift(a1, a2, n - d, n);
      assert Cell(a1, n - d, n) == Cell(a2, 0, n);
      CellIsAt(a1, 0, n);
      CellIsAt(a1, if n - d < d then n - d - d + n else n - d - d, n);
    }
  }

  /** `swap` exchanges the ranges in every memory of `n` cells, exactly when they are exchangeable. */
  lemma {:induction false} ExchangesExactly(n: nat, a1: int, a2: int, len: nat)
    requires n > 0
    ensures (forall m: seq<Byte> :: |m| == n ==> Exchanged(m, Swapped(m, a1, a2, len), a1, a2, len))
            <==> Exchangeable(a1, a2, len, n)
  {
    if Exchangeable(a1, a2, len, n) {
      forall m: seq<Byte> | |m| == n
        ensures Exchanged(m, Swapped(m, a1, a2, len), a1, a2, len)
      {
        ExchangesWhen(m, a1, a2, len);
      }
    } else if len > n {
      var m := Marker(n, Cell(a1, 0, n));
      LongSwapFails(n, a1, a2, len);
      assert !Exchanged(m, Swapped(m, a1, a2, len), a1, a2, len);
    } else {
      OverlapFails(n, a1, a2, len);
    }
  }

  /** Swapping exchangeable ranges again restores the memory. */
  lemma {:induction false} SwapTwice(m: seq<Byte>, a1: int, a2: int, len: nat)
    requires |m| > 0 && Exchangeable(a1, a2, len, |m|)
    ensures Swapped(Swapped(m, a1, a2, len), a1, a2, len) == m
  {
    var r := Swapped(m, a1, a2, len);
    var rr := Swapped(r, a1, a2, len);
    ExchangesWhen(m, a1, a2, len);
    ExchangesWhen(r, a1, a2, len);
    forall c | 0 <= c < |m|
      ensures rr[c] == m[c]
    {
      OffsetCell(a1, c, |m|);
      OffsetCell(a2, c, |m|);
    }
  }
}
