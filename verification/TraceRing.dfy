/** The circular buffer behind the instruction trace. */
module TraceRing {
  import opened Modular
  import opened Options

  /** Capacity, head and size of the buffer, and its slots. */
  datatype Ring<T> = Ring(slots: seq<T>, head: nat, size: nat) {

    predicate Valid() {
      size <= |slots| && (head < |slots| || |slots| == 0 == head)
    }

    /** The slot that holds the entry `i` places behind the oldest one. */
    function SlotOf(i: nat): (k: nat)
      requires Valid() && i < size
      ensures k < |slots|
    {
      (head - size + i) % |slots|
    }

    /** The entries, oldest first. */
    function Contents(): (s: seq<T>)
      requires Valid()
      ensures |s| == size
    {
      seq(size, i requires 0 <= i < size => slots[SlotOf(i)])
    }

    function Push(x: T): (r: Ring<T>)
      requires Valid()
      ensures r.Valid() && |r.slots| == |slots|
    {
      if |slots| == 0 then this
      else Ring(slots[head := x], (head + 1) % |slots|, if size < |slots| then size + 1 else size)
    }

    /** The slot of the most recent entry, which `back` and `popBack` use. */
    function BackSlot(): (k: nat)
      requires Valid() && size > 0
      ensures k < |slots|
    {
      (head + |slots| - 1) % |slots|
    }

    /** `popBack` moves the entry out; `moved` is what that leaves in the slot. */
    function Pop(moved: T -> T): (r: Ring<T>)
      requires Valid() && size > 0
      ensures r.Valid() && |r.slots| == |slots|
    {
      Ring(slots[BackSlot() := moved(slots[BackSlot()])], BackSlot(), size - 1)
    }

    /** The slot `operator[]` reads. */
    function ReadSlot(i: nat): (k: nat)
      requires Valid() && i < size
      ensures k < |slots|
    {
      if size < |slots| then i else (head + i) % |slots|
    }

    /** What `operator[]` reads at each index. */
    function Read(): (s: seq<T>)
      requires Valid()
      ensures |s| == size
    {
      seq(size, i requires 0 <= i < size => slots[ReadSlot(i)])
    }

    /** The oldest entry of a buffer that is not full lies in slot 0. */
    predicate Aligned() {
      size == |slots| || head == size
    }
  }

  /** The last `n` entries. */
  function LastOf<T>(s: seq<T>, n: nat): (r: seq<T>)
    ensures |r| == if |s| <= n then |s| else n
  {
    if |s| <= n then s else s[|s| - n..]
  }

  lemma {:induction false} LastOfSnoc<T>(s: seq<T>, x: T, n: nat)
    requires n > 0
    ensures LastOf(LastOf(s, n) + [x], n) == LastOf(s + [x], n)
  {
  }

  // ---- Slots ----

  lemma {:induction false} StepUp(head: int, next: int, d: int, n: int)
    requires 0 < n && next == (head + 1) % n
    ensures (next + d) % n == (head + 1 + d) % n
  {
    ModSum(head + 1, d, n);
  }

  lemma {:induction false} StepDown(head: int, next: int, d: int, n: int)
    requires 0 < n && next == (head + n - 1) % n
    ensures (next + d) % n == (head - 1 + d) % n
  {
    ModSum(head + n - 1, d, n);
    ModAddMultiple(head - 1 + d, 1, n);
  }

  lemma {:induction false} NotAhead(head: int, d: int, n: int)
    requires 0 <= head < n && -n < d < 0
    ensures (head + d) % n != head
  {
    ModUnique(head, 0, head, n);
    ModEqual(head + d, head, n);
    ModUnique(d, -1, d + n, n);
  }

  lemma {:induction false} AtHead(head: int, n: int)
    requires 0 <= head < n
    ensures head % n == head && (head - n) % n == head
  {
    ModUnique(head, 0, head, n);
    ModAddMultiple(head - n, 1, n);
  }

  /** The slots of the entries that a push keeps. */
  lemma {:induction false} PushSlot<T>(r: Ring<T>, x: T, dropped: nat, i: nat)
    requires r.Valid() && |r.slots| > 0 && dropped == (if r.size < |r.slots| then 0 else 1) && i < r.Push(x).size
    ensures r.Push(x).SlotOf(i) == if dropped + i < r.size then r.SlotOf(dropped + i) else r.head
    ensures dropped + i < r.size ==> r.SlotOf(dropped + i) != r.head
  {
    var n, p := |r.slots|, r.Push(x);
    StepUp(r.head, p.head, i - p.size, n);
    if dropped + i < r.size {
      NotAhead(r.head, dropped + i - r.size, n);
    } else {
      AtHead(r.head, n);
    }
  }

  /** The slots of the entries that a pop keeps, and of the one it takes. */
  lemma {:induction false} PopSlot<T>(r: Ring<T>, moved: T -> T, i: nat)
    requires r.Valid() && i < r.size
    ensures i < r.size - 1 ==> r.Pop(moved).SlotOf(i) == r.SlotOf(i)
    ensures i == r.size - 1 <==> r.BackSlot() == r.SlotOf(i)
  {
    var n, p := |r.slots|, r.Pop(moved);
    StepDown(r.head, p.head, 0, n);
    AtHead(p.head, n);
    if i < r.size - 1 {
      StepDown(r.head, p.head, i - p.size, n);
      NotAhead(p.head, i - p.size, n);
    }
  }

  lemma {:induction false} PushAt<T>(r: Ring<T>, x: T, dropped: nat, i: nat)
    requires r.Valid() && |r.slots| > 0 && dropped == (if r.size < |r.slots| then 0 else 1) && i < r.Push(x).size
    ensures dropped + i <= r.size && r.Push(x).Contents()[i] == (r.Contents() + [x])[dropped + i]
  {
    PushSlot(r, x, dropped, i);
  }

  /** A push drops the oldest entry of a full buffer. */
  lemma {:induction false} PushContents<T>(r: Ring<T>, x: T)
    requires r.Valid()
    ensures r.Push(x).Contents() == LastOf(r.Contents() + [x], |r.slots|)
  {
    if |r.slots| > 0 {
      var dropped: nat := if r.size < |r.slots| then 0 else 1;
      forall i | 0 <= i < r.Push(x).size
        ensures r.Push(x).Contents()[i] == LastOf(r.Contents() + [x], |r.slots|)[i]
      {
        PushAt(r, x, dropped, i);
      }
    }
  }

  /** A pop takes the newest entry and leaves the others. */
  lemma {:induction false} PopContents<T>(r: Ring<T>, moved: T -> T)
    requires r.Valid() && r.size > 0
    ensures r.Contents() == r.Pop(moved).Contents() + [r.slots[r.BackSlot()]]
  {
    forall i | 0 <= i < r.size
      ensures r.Contents()[i] == (r.Pop(moved).Contents() + [r.slots[r.BackSlot()]])[i]
    {
      PopSlot(r, moved, i);
    }
  }

  /** Reading by index returns the right entry exactly in an aligned buffer; otherwise every
      index reads a slot that is not the entry's. */
  lemma {:induction false} ReadsRightExactly<T>(r: Ring<T>, i: nat)
    requires r.Valid() && i < r.size
    ensures r.ReadSlot(i) == r.SlotOf(i) <==> r.Aligned()
  {
    var n := |r.slots|;
    if r.size == n {
      ModAddMultiple(r.head - r.size + i, 1, n);
    } else {
      ModUnique(i, 0, i, n);
      ModEqual(r.head - r.size + i, i, n);
      var d := r.head - r.size;
      assert -n < d < n;
      if d > 0 {
        ModUnique(d, 0, d, n);
      } else if d < 0 {
        ModUnique(d, -1, d + n, n);
      }
    }
  }

  // ---- Runs ----

  /** What a debugging session does to the trace. */
  datatype Op<T> = Put(x: T) | Drop

  /** The buffer after any operations; a drop from an empty buffer does nothing. */
  function Ran<T>(r: Ring<T>, ops: seq<Op<T>>, moved: T -> T): (p: Ring<T>)
    requires r.Valid()
    ensures p.Valid() && |p.slots| == |r.slots|
  {
    if ops == [] then r
    else
      var q := Ran(r, ops[..|ops| - 1], moved);
      match ops[|ops| - 1]
      case Put(x) => q.Push(x)
      case Drop => if q.size > 0 then q.Pop(moved) else q
  }

  /** What the buffer should hold: a stack that forgets its oldest entries. */
  function Kept<T>(ops: seq<Op<T>>, n: nat): (s: seq<T>)
    ensures |s| <= n
  {
    if ops == [] then []
    else
      var s := Kept(ops[..|ops| - 1], n);
      match ops[|ops| - 1]
      case Put(x) => LastOf(s + [x], n)
      case Drop => if s == [] then s else s[..|s| - 1]
  }

  /** How many of the pushes found the buffer full. */
  function Overflows<T>(ops: seq<Op<T>>, n: nat): nat {
    if ops == [] then 0
    else
      var init := ops[..|ops| - 1];
      Overflows(init, n) + if ops[|ops| - 1].Put? && |Kept(init, n)| == n then 1 else 0
  }

  predicate Fresh<T>(r: Ring<T>) {
    r.head == r.size == 0 < |r.slots|
  }

  /** After any operations the buffer holds exactly those entries. */
  lemma {:induction false} RunContents<T>(r: Ring<T>, ops: seq<Op<T>>, moved: T -> T)
    requires Fresh(r)
    ensures Ran(r, ops, moved).Contents() == Kept(ops, |r.slots|)
  {
    if ops != [] {
      var q := Ran(r, ops[..|ops| - 1], moved);
      RunContents(r, ops[..|ops| - 1], moved);
      match ops[|ops| - 1]
      case Put(x) => PushContents(q, x);
      case Drop =>
        if q.size > 0 { PopContents(q, moved); }
    }
  }

  lemma {:induction false} RunSize<T>(r: Ring<T>, ops: seq<Op<T>>, moved: T -> T)
    requires Fresh(r)
    ensures Ran(r, ops, moved).size == |Kept(ops, |r.slots|)|
  {
    RunContents(r, ops, moved);
  }

  lemma {:induction false} RunHead<T>(r: Ring<T>, ops: seq<Op<T>>, moved: T -> T)
    requires Fresh(r)
    ensures Ran(r, ops, moved).size == |Kept(ops, |r.slots|)|
    ensures Ran(r, ops, moved).head == (|Kept(ops, |r.slots|)| + Overflows(ops, |r.slots|)) % |r.slots|
  {
    var n := |r.slots|;
    RunSize(r, ops, moved);
    if ops == [] {
      AtHead(0, n);
    } else {
      var init := ops[..|ops| - 1];
      var q, d := Ran(r, init, moved), Overflows(init, n);
      RunHead(r, init, moved);
      match ops[|ops| - 1]
      case Put(_) => HeadUp(q.head, q.size + d, n);
      case Drop =>
        if q.size > 0 { HeadBack(q.head, q.size + d, n); }
    }
  }

  lemma {:induction false} HeadUp(head: int, k: int, n: int)
    requires 0 < n && head == k % n
    ensures (head + 1) % n == (k + 1) % n
  {
    ModSum(k, 1, n);
  }

  lemma {:induction false} HeadBack(head: int, k: int, n: int)
    requires 0 < n && head == k % n
    ensures (head + n - 1) % n == (k - 1) % n
  {
    ModSum(k, n - 1, n);
    ModAddMultiple(k - 1, 1, n);
  }

  lemma {:induction false} RoundTrips(size: nat, d: nat, n: nat)
    requires size < n
    ensures (size + d) % n == size <==> d % n == 0
  {
    ModUnique(size, 0, size, n);
    ModEqual(size + d, size, n);
  }

  /** The buffer is empty or full, or the number of pushes that found it full is a multiple of
      its capacity. */
  predicate InStep<T>(ops: seq<Op<T>>, n: nat)
    requires n > 0
  {
    |Kept(ops, n)| == 0 || |Kept(ops, n)| == n || Overflows(ops, n) % n == 0
  }

  /** After any run of pushes and pops from an empty buffer, reading by index is right
      exactly then; otherwise every index reads a slot that is not the entry's. */
  lemma {:induction false} ReadsRightAfterRun<T>(r: Ring<T>, ops: seq<Op<T>>, moved: T -> T, i: nat)
    requires Fresh(r) && i < Ran(r, ops, moved).size
    ensures var p := Ran(r, ops, moved); p.ReadSlot(i) == p.SlotOf(i) <==> InStep(ops, |r.slots|)
  {
    var p := Ran(r, ops, moved);
    RunHead(r, ops, moved);
    if p.size < |r.slots| { RoundTrips(p.size, Overflows(ops, |r.slots|), |r.slots|); }
    ReadsRightExactly(p, i);
  }

  // ---- Which push each index reads ----

  /** The pushes by their places among the operations. */
  function Numbered<T>(ops: seq<Op<T>>): (labels: seq<Op<nat>>)
    ensures |labels| == |ops|
  {
    seq(|ops|, i requires 0 <= i < |ops| => if ops[i].Put? then Put(i) else Drop)
  }

  /** The pushes whose entries the buffer should hold, oldest first. */
  function KeptPushes<T>(ops: seq<Op<T>>, n: nat): (pushes: seq<nat>)
    ensures |pushes| <= n
  {
    Kept(Numbered(ops), n)
  }

  /** The last push into a slot, if any. */
  function LastInto<T>(r: Ring<T>, ops: seq<Op<T>>, moved: T -> T, k: nat): (q: Option<nat>)
    requires r.Valid()
    ensures q.Some? ==> q.value < |ops| && ops[q.value].Put? && Ran(r, ops[..q.value], moved).head == k
  {
    if ops == [] then None
    else
      var init := ops[..|ops| - 1];
      if ops[|ops| - 1].Put? && Ran(r, init, moved).head == k then Some(|ops| - 1)
      else
        var q := LastInto(r, init, moved, k);
        assert q.Some? ==> init[..q.value] == ops[..q.value];
        q
  }

  /** One of the buffer's entries lies in the slot. */
  ghost predicate Live<T>(p: Ring<T>, k: nat)
    requires p.Valid()
  {
    exists i :: 0 <= i < p.size && p.SlotOf(i) == k
  }

  /** A slot holds the entry of the last push into it, moved out if it has been popped. */
  ghost predicate SlotHolds<T>(r: Ring<T>, ops: seq<Op<T>>, moved: T -> T, k: nat)
    requires r.Valid() && k < |r.slots|
  {
    var p, q := Ran(r, ops, moved), LastInto(r, ops, moved, k);
    p.slots[k] == match q
                  case None => r.slots[k]
                  case Some(a) => if Live(p, k) then ops[a].x else moved(ops[a].x)
  }
  /** A push writes its slot and leaves the entries of the others. */
  lemma {:induction false} PushLive<T>(q: Ring<T>, x: T, k: nat)
    requires q.Valid() && k < |q.slots|
    ensures Live(q.Push(x), k) <==> k == q.head || Live(q, k)
  {
    var p := q.Push(x);
    var dropped: nat := if q.size < |q.slots| then 0 else 1;
    PushSlot(q, x, dropped, p.size - 1);
    if Live(p, k) {
      var i :| 0 <= i < p.size && p.SlotOf(i) == k;
      PushSlot(q, x, dropped, i);
    }
    if k != q.head && Live(q, k) {
      var j :| 0 <= j < q.size && q.SlotOf(j) == k;
      AtHead(q.head, |q.slots|);
      assert j >= dropped;
      PushSlot(q, x, dropped, j - dropped);
      assert p.SlotOf(j - dropped) == k;
    }
  }

  /** A pop frees the newest entry's slot and no other. */
  lemma {:induction false} PopLive<T>(q: Ring<T>, moved: T -> T, k: nat)
    requires q.Valid() && q.size > 0 && k < |q.slots|
    ensures Live(q.Pop(moved), k) <==> k != q.BackSlot() && Live(q, k)
    ensures Live(q, q.BackSlot())
  {
    var p := q.Pop(moved);
    PopSlot(q, moved, q.size - 1);
    if Live(p, k) {
      var i :| 0 <= i < p.size && p.SlotOf(i) == k;
      PopSlot(q, moved, i);
      assert q.SlotOf(i) == k;
    }
    if k != q.BackSlot() && Live(q, k) {
      var j :| 0 <= j < q.size && q.SlotOf(j) == k;
      PopSlot(q, moved, j);
      assert p.SlotOf(j) == k;
    }
  }

  /** The first slots, as many as there are entries, have been written; and all of them once
      a push has found the buffer full. */
  lemma {:induction false} Written<T>(r: Ring<T>, ops: seq<Op<T>>, moved: T -> T, k: nat)
    requires Fresh(r) && k < |r.slots| && (k < |Kept(ops, |r.slots|)| || Overflows(ops, |r.slots|) > 0)
    ensures LastInto(r, ops, moved, k).Some?
  {
    var n, init := |r.slots|, ops[..|ops| - 1];
    RunHead(r, init, moved);
    if ops[|ops| - 1].Put? && Ran(r, init, moved).head == k {
    } else {
      if k >= |Kept(init, n)| && Overflows(init, n) == 0 {
        assert ops[|ops| - 1].Put? && |Kept(init, n)| < n && k == |Kept(init, n)|;
        ModUnique(k, 0, k, n);
        assert false;
      }
      Written(r, init, moved, k);
    }
  }

  lemma {:induction false} LiveIsWritten<T>(r: Ring<T>, ops: seq<Op<T>>, moved: T -> T, k: nat)
    requires Fresh(r) && Live(Ran(r, ops, moved), k)
    ensures k < |r.slots| && LastInto(r, ops, moved, k).Some?
  {
    var p, n := Ran(r, ops, moved), |r.slots|;
    var i :| 0 <= i < p.size && p.SlotOf(i) == k;
    RunHead(r, ops, moved);
    if Overflows(ops, n) == 0 {
      ModSum(p.size, i - p.size, n);
      ModUnique(i, 0, i, n);
    }
    Written(r, ops, moved, k);
  }

  /** Every slot holds what the last push into it left there. */
  lemma {:induction false} EverySlotHolds<T>(r: Ring<T>, ops: seq<Op<T>>, moved: T -> T, k: nat)
    requires Fresh(r) && k < |r.slots|
    ensures SlotHolds(r, ops, moved, k)
  {
    if ops != [] {
      var init := ops[..|ops| - 1];
      var q := Ran(r, init, moved);
      EverySlotHolds(r, init, moved, k);
      match ops[|ops| - 1]
      case Put(x) => PushLive(q, x, k);
      case Drop =>
        if q.size > 0 {
          PopLive(q, moved, k);
          if k == q.BackSlot() { LiveIsWritten(r, init, moved, k); }
        }
    }
  }

  lemma {:induction false} NumberedFront<T>(ops: seq<Op<T>>)
    requires ops != []
    ensures Numbered(ops)[..|ops| - 1] == Numbered(ops[..|ops| - 1])
  {
  }

  lemma {:induction false} KeptPushesStep<T>(ops: seq<Op<T>>, n: nat)
    requires ops != []
    ensures var init := ops[..|ops| - 1];
            KeptPushes(ops, n) == if ops[|ops| - 1].Put? then LastOf(KeptPushes(init, n) + [|ops| - 1], n)
                                  else if KeptPushes(init, n) == [] then []
                                  else KeptPushes(init, n)[..|KeptPushes(init, n)| - 1]
  {
    NumberedFront(ops);
  }

  /** The buffer's entries are those of the pushes. */
  ghost predicate SameEntries<T>(kept: seq<T>, pushes: seq<nat>, ops: seq<Op<T>>) {
    |kept| == |pushes| && forall i :: 0 <= i < |kept| ==>
      pushes[i] < |ops| && ops[pushes[i]].Put? && kept[i] == ops[pushes[i]].x
  }

  lemma {:induction false} SameEntriesLonger<T>(kept: seq<T>, pushes: seq<nat>, init: seq<Op<T>>, ops: seq<Op<T>>)
    requires init <= ops && SameEntries(kept, pushes, init)
    ensures SameEntries(kept, pushes, ops)
  {
  }

  lemma {:induction false} SameEntriesSnoc<T>(kept: seq<T>, pushes: seq<nat>, ops: seq<Op<T>>, x: T, j: nat)
    requires SameEntries(kept, pushes, ops) && j < |ops| && ops[j] == Put(x)
    ensures SameEntries(kept + [x], pushes + [j], ops)
  {
  }

  lemma {:induction false} SameEntriesLast<T>(kept: seq<T>, pushes: seq<nat>, ops: seq<Op<T>>, n: nat)
    requires SameEntries(kept, pushes, ops)
    ensures SameEntries(LastOf(kept, n), LastOf(pushes, n), ops)
  {
  }

  lemma {:induction false} KeptEntries<T>(ops: seq<Op<T>>, n: nat)
    ensures SameEntries(Kept(ops, n), KeptPushes(ops, n), ops)
  {
    if ops != [] {
      var init := ops[..|ops| - 1];
      KeptEntries(init, n);
      KeptPushesStep(ops, n);
      SameEntriesLonger(Kept(init, n), KeptPushes(init, n), init, ops);
      match ops[|ops| - 1]
      case Put(x) =>
        SameEntriesSnoc(Kept(init, n), KeptPushes(init, n), ops, x, |ops| - 1);
        SameEntriesLast(Kept(init, n) + [x], KeptPushes(init, n) + [|ops| - 1], ops, n);
      case Drop =>
    }
  }

  /** Slot `k` was last written by push `j` of the list. */
  ghost predicate WrittenBy<T>(r: Ring<T>, ops: seq<Op<T>>, moved: T -> T, k: nat, pushes: seq<nat>, j: nat)
    requires r.Valid()
  {
    j < |pushes| && LastInto(r, ops, moved, k) == Some(pushes[j])
  }

  lemma {:induction false} WrittenByPut<T>(r: Ring<T>, ops: seq<Op<T>>, moved: T -> T, init: seq<Op<T>>, q: Ring<T>,
                                           k: nat, before: seq<nat>, after: seq<nat>, d: nat, i: nat)
    requires r.Valid() && ops != [] && init == ops[..|ops| - 1] && ops[|ops| - 1].Put? && q == Ran(r, init, moved)
    requires after == LastOf(before + [|ops| - 1], |r.slots|) && |after| + d == |before| + 1 && i < |after|
    requires if d + i < |before| then k != q.head && WrittenBy(r, init, moved, k, before, d + i) else k == q.head
    ensures WrittenBy(r, ops, moved, k, after, i)
  {
  }

  lemma {:induction false} KeptSize<T>(r: Ring<T>, ops: seq<Op<T>>, moved: T -> T)
    requires Fresh(r)
    ensures |KeptPushes(ops, |r.slots|)| == |Kept(ops, |r.slots|)| == Ran(r, ops, moved).size
  {
    RunHead(r, ops, moved);
    KeptEntries(ops, |r.slots|);
  }

  /** The last push into the slot of entry `i` is the one that brought it. */
  lemma {:induction false} EntryPush<T>(r: Ring<T>, ops: seq<Op<T>>, moved: T -> T, i: nat)
    requires Fresh(r) && i < Ran(r, ops, moved).size
    ensures WrittenBy(r, ops, moved, Ran(r, ops, moved).SlotOf(i), KeptPushes(ops, |r.slots|), i)
  {
    var n, init := |r.slots|, ops[..|ops| - 1];
    var q := Ran(r, init, moved);
    KeptSize(r, ops, moved);
    KeptSize(r, init, moved);
    KeptPushesStep(ops, n);
    match ops[|ops| - 1]
    case Put(x) =>
      var d: nat := if q.size < n then 0 else 1;
      PushSlot(q, x, d, i);
      if d + i < q.size { EntryPush(r, init, moved, d + i); }
      WrittenByPut(r, ops, moved, init, q, q.Push(x).SlotOf(i), KeptPushes(init, n), KeptPushes(ops, n), d, i);
    case Drop =>
      PopSlot(q, moved, i);
      EntryPush(r, init, moved, i);
  }

  /** The push whose slot `operator[]` reads at index `i`. */
  function ReadPush<T>(r: Ring<T>, ops: seq<Op<T>>, moved: T -> T, i: nat): Option<nat>
    requires r.Valid() && i < Ran(r, ops, moved).size
  {
    LastInto(r, ops, moved, Ran(r, ops, moved).ReadSlot(i))
  }

  /** Index `i` reads what a push has left: its entry or, if that has been popped, what moving
      it out leaves. */
  ghost predicate ReadsPush<T>(r: Ring<T>, ops: seq<Op<T>>, moved: T -> T, i: nat)
    requires r.Valid() && i < Ran(r, ops, moved).size
  {
    var p := Ran(r, ops, moved);
    match ReadPush(r, ops, moved, i)
    case None => false
    case Some(a) => p.Read()[i] == if Live(p, p.ReadSlot(i)) then ops[a].x else moved(ops[a].x)
  }

  /** That push is the one of the buffer's entry `i`. */
  ghost predicate ReadsOwn<T>(r: Ring<T>, ops: seq<Op<T>>, moved: T -> T, i: nat)
    requires r.Valid() && i < Ran(r, ops, moved).size
  {
    var own := KeptPushes(ops, |r.slots|);
    i < |own| && ReadPush(r, ops, moved, i) == Some(own[i])
  }

  lemma {:induction false} ReadSlotWritten<T>(r: Ring<T>, ops: seq<Op<T>>, moved: T -> T, i: nat)
    requires Fresh(r) && i < Ran(r, ops, moved).size
    ensures ReadPush(r, ops, moved, i).Some?
  {
    var p := Ran(r, ops, moved);
    RunHead(r, ops, moved);
    if p.size < |r.slots| {
      Written(r, ops, moved, i);
    } else {
      Written(r, ops, moved, p.ReadSlot(i));
    }
  }

  /** After any run, whatever is pushed: what index `i` reads, and that it is of the push of
      the buffer's entry `i` exactly if the buffer is in step. */
  lemma {:induction false} ReadsPushExactly<T>(r: Ring<T>, ops: seq<Op<T>>, moved: T -> T, i: nat)
    requires Fresh(r) && i < Ran(r, ops, moved).size
    ensures ReadsPush(r, ops, moved, i) && (ReadsOwn(r, ops, moved, i) <==> InStep(ops, |r.slots|))
  {
    EntryPush(r, ops, moved, i);
    ReadsRightAfterRun(r, ops, moved, i);
    ReadSlotWritten(r, ops, moved, i);
    EverySlotHolds(r, ops, moved, Ran(r, ops, moved).ReadSlot(i));
  }

  /** So reading by index shows the entries if the buffer is in step. */
  lemma {:induction false} ReadIsContents<T>(r: Ring<T>, ops: seq<Op<T>>, moved: T -> T)
    requires Fresh(r) && InStep(ops, |r.slots|)
    ensures Ran(r, ops, moved).Read() == Ran(r, ops, moved).Contents() == Kept(ops, |r.slots|)
  {
    RunContents(r, ops, moved);
    forall i | 0 <= i < Ran(r, ops, moved).size
      ensures Ran(r, ops, moved).Read()[i] == Ran(r, ops, moved).Contents()[i]
    {
      ReadsRightAfterRun(r, ops, moved, i);
    }
  }

  /** Three entries in a buffer for two, and one popped: the second is left, and the slot of
      the third, which was popped, is read. */
  lemma {:induction false} PoppedIsRead(moved: int -> int)
    ensures var p := Ran(Ring([0, 0], 0, 0), [Put(1), Put(2), Put(3), Drop], moved);
            p.Contents() == [2] && p.Read() == [moved(3)]
  {
    var r := Ring([0, 0], 0, 0);
    var a: seq<Op<int>>, b: seq<Op<int>>, c: seq<Op<int>> := [Put(1)], [Put(1), Put(2)], [Put(1), Put(2), Put(3)];
    assert a[..0] == [] && b[..1] == a && c[..2] == b && (c + [Drop])[..3] == c;
    assert Ran(r, a, moved) == Ring([1, 0], 1, 1) && Ran(r, b, moved) == Ring([1, 2], 0, 2);
    assert Ran(r, c, moved) == Ring([3, 2], 1, 2);
    assert c + [Drop] == [Put(1), Put(2), Put(3), Drop];
    assert Ran(r, c + [Drop], moved) == Ring([moved(3), 2], 0, 1);
  }

  /** Pushes of `xs`, then `k` pops. */
  function FillThenDrop<T>(xs: seq<T>, k: nat): (ops: seq<Op<T>>)
    ensures |ops| == |xs| + k
  {
    if k > 0 then FillThenDrop(xs, k - 1) + [Drop]
    else if xs == [] then [] else FillThenDrop(xs[..|xs| - 1], 0) + [Put(xs[|xs| - 1])]
  }

  lemma {:induction false} KeptSnoc<T>(ops: seq<Op<T>>, op: Op<T>, n: nat)
    ensures Kept(ops + [op], n) == match op case Put(x) => LastOf(Kept(ops, n) + [x], n)
                                            case Drop => if Kept(ops, n) == [] then []
                                              else Kept(ops, n)[..|Kept(ops, n)| - 1]
    ensures Overflows(ops + [op], n) == Overflows(ops, n) + if op.Put? && |Kept(ops, n)| == n then 1 else 0
  {
    assert (ops + [op])[..|ops|] == ops;
  }

  lemma {:induction false} FillShape<T>(xs: seq<T>, n: nat)
    ensures var ops := FillThenDrop(xs, 0);
            && |Kept(ops, n)| == (if |xs| <= n then |xs| else n)
            && Overflows(ops, n) == if |xs| <= n then 0 else |xs| - n
  {
    if xs != [] {
      var init, x := xs[..|xs| - 1], xs[|xs| - 1];
      FillShape(init, n);
      KeptSnoc(FillThenDrop(init, 0), Put(x), n);
    }
  }

  lemma {:induction false} KeptDrop<T>(before: seq<Op<T>>, ops: seq<Op<T>>, n: nat)
    requires ops == before + [Drop]
    ensures |Kept(ops, n)| == if |Kept(before, n)| == 0 then 0 else |Kept(before, n)| - 1
    ensures Overflows(ops, n) == Overflows(before, n)
  {
    KeptSnoc(before, Drop, n);
  }

  lemma {:induction false} FillThenDropShape<T>(xs: seq<T>, n: nat, k: nat, filled: seq<Op<T>>, ops: seq<Op<T>>)
    requires filled == FillThenDrop(xs, 0) && ops == FillThenDrop(xs, k)
    ensures var held := |Kept(filled, n)|;
            |Kept(ops, n)| == if k <= held then held - k else 0
    ensures Overflows(ops, n) == Overflows(filled, n)
  {
    if k > 0 {
      var before := FillThenDrop(xs, k - 1);
      FillThenDropShape(xs, n, k - 1, filled, before);
      KeptDrop(before, ops, n);
    }
  }

  lemma {:induction false} WholeRounds(pushed: nat, k: nat, size: nat, overflows: nat, n: nat)
    requires n > 0 && overflows == if pushed <= n then 0 else pushed - n
    requires var held := if pushed <= n then pushed else n; size == if k <= held then held - k else 0
    ensures (size == 0 || size == n || overflows % n == 0) <==> (k == 0 || size == 0 || pushed <= n || pushed % n == 0)
  {
    if pushed > n { ModAddMultiple(pushed - n, 1, n); }
    AtHead(0, n);
  }

  /** After tracing `xs` and stepping back `k` times: reading by index is right exactly if
      nothing was popped, nothing is left, the buffer never overflowed, or it was filled a
      whole number of times. */
  lemma {:induction false} TraceReadsRightExactly<T>(r: Ring<T>, xs: seq<T>, k: nat, moved: T -> T)
    requires Fresh(r)
    ensures var p := Ran(r, FillThenDrop(xs, k), moved);
            (forall i :: 0 <= i < p.size ==> p.ReadSlot(i) == p.SlotOf(i))
            <==> k == 0 || p.size == 0 || |xs| <= |r.slots| || |xs| % |r.slots| == 0
  {
    var ops, n := FillThenDrop(xs, k), |r.slots|;
    var p := Ran(r, ops, moved);
    RunHead(r, ops, moved);
    FillShape(xs, n);
    FillThenDropShape(xs, n, k, FillThenDrop(xs, 0), ops);
    WholeRounds(|xs|, k, p.size, Overflows(ops, n), n);
    forall i | 0 <= i < p.size
      ensures p.ReadSlot(i) == p.SlotOf(i) <==> InStep(ops, n)
    {
      ReadsRightAfterRun(r, ops, moved, i);
    }
    if p.size > 0 { assert p.ReadSlot(0) == p.SlotOf(0) <==> InStep(ops, n); }
  }

  // ---- In place ----

  class CircularBuffer<T> {
    const data: array<T>
    var head: nat
    var size: nat

    /** What a moved-out entry leaves behind. */
    const moved: T -> T

    constructor (capacity: nat, blank: T, moved: T -> T)
      ensures this.moved == moved
      ensures fresh(data) && data.Length == capacity && head == 0 && size == 0 && State().Valid()
      ensures State().Contents() == []
    {
      data := new T[capacity](_ => blank);
      this.moved := moved;
      head, size := 0, 0;
    }

    ghost function State(): Ring<T>
      reads this, data
    {
      Ring(data[..], head, size)
    }

    method Push(item: T)
      requires State().Valid()
      modifies this, data
      ensures State() == old(State()).Push(item)
    {
      if data.Length == 0 { return; }
      data[head] := item;
      head := (head + 1) % data.Length;
      if size < data.Length { size := size + 1; }
    }

    method PopBack() returns (out: Option<T>)
      requires State().Valid()
      modifies this`head, this`size, data
      ensures out.Some? == (old(size) > 0)
      ensures out.Some? ==> State() == old(State()).Pop(moved) && out.value == old(State().Contents()[size - 1])
      ensures out.None? ==> State() == old(State())
    {
      if size == 0 { return None; }
      PopContents(State(), moved);
      head := (head + data.Length - 1) % data.Length;
      out := Some(data[head]);
      data[head] := moved(data[head]);
      size := size - 1;
    }

    /** `operator[]`; `None` is the exception for an index out of range. */
    method At(index: nat) returns (entry: Option<T>)
      requires State().Valid()
      ensures entry.Some? == (index < size)
      ensures entry.Some? ==> entry.value == data[State().ReadSlot(index)]
      ensures entry.Some? && State().Aligned() ==> entry.value == State().Contents()[index]
    {
      if index >= size { return None; }
      ReadsRightExactly(State(), index);
      if size < data.Length {
        entry := Some(data[index]);
      } else {
        entry := Some(data[(head + index) % data.Length]);
      }
    }

    /** `back`, for a buffer with entries. */
    method Back() returns (entry: T)
      requires State().Valid() && size > 0
      ensures entry == State().Contents()[size - 1]
    {
      PopContents(State(), moved);
      entry := data[(head + data.Length - 1) % data.Length];
    }

    /** Assigning through the reference that `back` returns. */
    method SetBack(entry: T)
      requires State().Valid() && size > 0
      modifies data
      ensures State().Valid() && State().Contents() == old(State().Contents())[size - 1 := entry]
    {
      ghost var before := State();
      var slot := (head + data.Length - 1) % data.Length;
      PopContents(State(), moved);
      data[slot] := entry;
      BackOnly(before, entry);
    }
  }

  /** No other entry shares the slot of the newest one. */
  lemma {:induction false} BackOnly<T>(r: Ring<T>, entry: T)
    requires r.Valid() && r.size > 0
    ensures r.(slots := r.slots[r.BackSlot() := entry]).Contents() == r.Contents()[r.size - 1 := entry]
  {
    PopSlot(r, x => x, r.size - 1);
    forall i | 0 <= i < r.size - 1
      ensures r.SlotOf(i) != r.BackSlot()
    {
      SlotsDiffer(r, i, r.size - 1);
    }
  }

  lemma {:induction false} SlotsDiffer<T>(r: Ring<T>, i: nat, j: nat)
    requires r.Valid() && i < j < r.size
    ensures r.SlotOf(i) != r.SlotOf(j)
  {
    var n := |r.slots|;
    ModEqual(r.head - r.size + i, r.head - r.size + j, n);
    ModUnique(i - j, -1, i - j + n, n);
  }
}
