/**
 The queue of parameters that wait to be reported by a responder: a ring of PIDs in an array.
 */
module Queues {
  import opened Bytes

  /** The ring. All its slots hold zero at first. */
  datatype Ring = Ring(data: seq<Word>, head: nat, tail: nat, previous: Word)

  predicate Valid(q: Ring) {
    q.head < |q.data| && q.tail < |q.data| && |q.data| < 0x1_0000
  }

  predicate Wraps(q: Ring) {
    q.tail > q.head
  }

  /** What waits in the ring, in the order in which it will be popped. */
  function Contents(q: Ring): (s: seq<Word>)
    requires Valid(q)
    ensures |s| < |q.data|
  {
    if Wraps(q) then q.data[q.tail..] + q.data[..q.head] else q.data[q.tail..q.head]
  }

  predicate Distinct(s: seq<Word>) {
    forall i, j :: 0 <= i < j < |s| ==> s[i] != s[j]
  }

  // ---------- the search for a PID before it is pushed ----------

  /** The loop variable of the search after `k` iterations: it is compared with the head before it is wrapped. */
  function Cursor(q: Ring, k: nat): (i: nat)
    requires Valid(q)
    ensures i <= |q.data|
  {
    if k == 0 then q.tail
    else if Cursor(q, k - 1) == |q.data| then 1
    else Cursor(q, k - 1) + 1
  }

  /** The slot that iteration `k` looks at. */
  function Probe(q: Ring, k: nat): (i: nat)
    requires Valid(q)
    ensures i < |q.data|
  {
    if Cursor(q, k) == |q.data| then 0 else Cursor(q, k)
  }

  predicate StopsAt(q: Ring, pid: Word, k: nat)
    requires Valid(q)
  {
    Cursor(q, k) == q.head || q.data[Probe(q, k)] == pid
  }

  lemma {:induction false} CursorBeforeWrap(q: Ring, k: nat)
    requires Valid(q) && k <= |q.data| - q.tail
    ensures Cursor(q, k) == q.tail + k
  {
    if k > 0 {
      CursorBeforeWrap(q, k - 1);
    }
  }

  lemma {:induction false} CursorAfterWrap(q: Ring, k: nat)
    requires Valid(q) && 1 <= k <= |q.data|
    ensures Cursor(q, |q.data| - q.tail + k) == k
  {
    if k == 1 {
      CursorBeforeWrap(q, |q.data| - q.tail);
    } else {
      CursorAfterWrap(q, k - 1);
    }
  }

  lemma {:induction false} EverySlotIsProbed(q: Ring, at: nat) returns (k: nat)
    requires Valid(q) && at < |q.data|
    ensures Probe(q, k) == at
  {
    if at >= q.tail {
      k := at - q.tail;
      CursorBeforeWrap(q, k);
    } else if at == 0 {
      k := |q.data| - q.tail;
      CursorBeforeWrap(q, k);
    } else {
      k := |q.data| - q.tail + at;
      CursorAfterWrap(q, at);
    }
  }

  /** The one shape of the ring in which the search never meets the head: the head is at the start, the tail is not. */
  predicate HeadIsSkipped(q: Ring) {
    q.head == 0 && q.tail > 0
  }

  lemma {:induction false} HeadIsNeverMet(q: Ring, k: nat)
    requires Valid(q) && HeadIsSkipped(q)
    ensures Cursor(q, k) > 0
  {
  }

  /** Unless the head is skipped, the search goes through what is queued, in order, and then meets the head. */
  lemma {:induction false} SearchFollowsContents(q: Ring, k: nat)
    requires Valid(q) && !HeadIsSkipped(q) && k <= |Contents(q)|
    ensures Cursor(q, k) == q.head <==> k == |Contents(q)|
    ensures k < |Contents(q)| ==> q.data[Probe(q, k)] == Contents(q)[k]
  {
    if k <= |q.data| - q.tail {
      CursorBeforeWrap(q, k);
    } else {
      CursorAfterWrap(q, k - (|q.data| - q.tail));
    }
  }

  predicate SearchEnds(q: Ring, pid: Word) {
    !HeadIsSkipped(q) || pid in q.data
  }

  /**
   The search ends if and only if it can meet the head, or the PID is in some slot, be it one that is
   no longer in use. Otherwise the call never returns.
   */
  lemma {:induction false} SearchEndsExactly(q: Ring, pid: Word)
    requires Valid(q)
    ensures (exists k :: StopsAt(q, pid, k)) <==> SearchEnds(q, pid)
  {
    if !HeadIsSkipped(q) {
      SearchFollowsContents(q, |Contents(q)|);
      assert StopsAt(q, pid, |Contents(q)|);
    } else if pid in q.data {
      var at :| 0 <= at < |q.data| && q.data[at] == pid;
      var k := EverySlotIsProbed(q, at);
      assert StopsAt(q, pid, k);
    } else {
      forall k: nat
        ensures !StopsAt(q, pid, k)
      {
        HeadIsNeverMet(q, k);
      }
    }
  }

  // ---------- the operations ----------

  /** Is the PID found by the search? When the head is skipped, slots no longer in use are searched too. */
  predicate IsFound(q: Ring, pid: Word)
    requires Valid(q)
  {
    if HeadIsSkipped(q) then pid in q.data else pid in Contents(q)
  }

  /** Does a push return? A PID of 0 is refused before the search. */
  predicate PushReturns(q: Ring, pid: Word) {
    pid == 0 || SearchEnds(q, pid)
  }

  /** The ring after a push that returns, and whether it reports success. */
  function Push(q: Ring, pid: Word): (r: (Ring, bool))
    requires Valid(q) && PushReturns(q, pid)
    ensures Valid(r.0) && |r.0.data| == |q.data|
  {
    if pid == 0 then (q, false)
    else if IsFound(q, pid) then (q, true)
    else if Next(q, q.head) != q.tail then
      (q.(data := q.data[q.head := pid], head := Next(q, q.head)), true)
    else (q, false)
  }

  function Next(q: Ring, i: nat): nat
    requires Valid(q) && i < |q.data|
  {
    if i + 1 == |q.data| then 0 else i + 1
  }

  /** The ring after a pop, and the PID popped; 0 if there is none. */
  function Pop(q: Ring): (r: (Ring, Word))
    requires Valid(q)
    ensures Valid(r.0) && |r.0.data| == |q.data|
  {
    if Size(q) == 0 then (q, 0)
    else (q.(tail := Next(q, q.tail), previous := q.data[q.tail]), q.data[q.tail])
  }

  /** The number of PIDs, up to 255. */
  function Size(q: Ring): (n: nat)
    requires Valid(q)
    ensures n == if |Contents(q)| > 255 then 255 else |Contents(q)|
  {
    var size := if q.head < q.tail then q.head - q.tail + |q.data| else q.head - q.tail;
    if size > 255 then 255 else size
  }

  // ---------- a plain queue ----------

  /** A sequence without duplicates, of limited length, and the PID popped last. */
  datatype Fifo = Fifo(items: seq<Word>, previous: Word)

  /** A PID is not queued twice; asking for that succeeds. */
  function Enqueue(f: Fifo, capacity: nat, pid: Word): (Fifo, bool) {
    if pid == 0 then (f, false)
    else if pid in f.items then (f, true)
    else if |f.items| < capacity then (f.(items := f.items + [pid]), true)
    else (f, false)
  }

  function Dequeue(f: Fifo): (Fifo, Word) {
    if f.items == [] then (f, 0) else (Fifo(f.items[1..], f.items[0]), f.items[0])
  }

  function Abstract(q: Ring): Fifo
    requires Valid(q)
  {
    Fifo(Contents(q), q.previous)
  }

  lemma {:induction false} NextIsModulo(i: nat, n: nat)
    requires i < n
    ensures (i + 1) % n == if i + 1 == n then 0 else i + 1
  {
  }

  lemma {:induction false} FullWhenHeadMeetsTail(q: Ring)
    requires Valid(q)
    ensures Next(q, q.head) == q.tail <==> |Contents(q)| == |q.data| - 1
  {
  }

  lemma {:induction false} StoreAppends(q: Ring, pid: Word)
    requires Valid(q) && |Contents(q)| < |q.data| - 1
    ensures Contents(q.(data := q.data[q.head := pid], head := Next(q, q.head))) == Contents(q) + [pid]
  {
    var r := q.(data := q.data[q.head := pid], head := Next(q, q.head));
    if Wraps(q) {
      assert r.data[r.tail..] == q.data[q.tail..] && r.data[..r.head] == q.data[..q.head] + [pid];
    } else {
      assert r.data[q.tail..q.head + 1] == q.data[q.tail..q.head] + [pid];
      assert Wraps(r) ==> r.head == 0 && r.data[r.tail..] == r.data[q.tail..q.head + 1];
    }
  }

  lemma {:induction false} PopDropsFirst(q: Ring)
    requires Valid(q) && Contents(q) != []
    ensures Contents(q)[0] == q.data[q.tail] && Contents(Pop(q).0) == Contents(q)[1..]
  {
    if Wraps(q) && q.tail + 1 < |q.data| {
      assert q.data[q.tail..] == [q.data[q.tail]] + q.data[q.tail + 1..];
    }
  }

  /** Popping gives what was queued first, and the PIDs left keep their order. */
  lemma {:induction false} PopRefines(q: Ring)
    requires Valid(q)
    ensures (Abstract(Pop(q).0), Pop(q).1) == Dequeue(Abstract(q))
  {
    if Contents(q) != [] {
      PopDropsFirst(q);
    }
  }

  /** The result of pushing when the head is not skipped is that of the plain queue, of one slot less than the ring. */
  lemma {:induction false} PushRefines(q: Ring, pid: Word)
    requires Valid(q) && !HeadIsSkipped(q)
    ensures var r := Push(q, pid);
            (Abstract(r.0), r.1) == Enqueue(Abstract(q), |q.data| - 1, pid)
  {
    FullWhenHeadMeetsTail(q);
    if |Contents(q)| < |q.data| - 1 {
      StoreAppends(q, pid);
    }
  }

  /**
   When the head is skipped and the call returns, nothing is queued, and success is reported. The plain
   queue does the same if and only if the PID is queued already; otherwise success is reported for a
   PID that is only left in a slot no longer in use.
   */
  lemma {:induction false} PushWhileHeadIsSkipped(q: Ring, pid: Word)
    requires Valid(q) && HeadIsSkipped(q) && SearchEnds(q, pid) && pid != 0
    ensures Push(q, pid) == (q, true)
    ensures (Abstract(q), true) == Enqueue(Abstract(q), |q.data| - 1, pid) <==> pid in Contents(q)
  {
  }

  /** In what state, and with what PID, pushing is pushing to the plain queue. */
  predicate IsExact(q: Ring, pid: Word)
    requires Valid(q)
    ensures IsExact(q, pid) ==> PushReturns(q, pid)
  {
    !HeadIsSkipped(q) || pid == 0 || pid in Contents(q)
  }

  /**
   A push that returns does what the plain queue does, if and only if the head is not skipped or the PID
   is queued already.
   */
  lemma {:induction false} PushIsExactWhen(q: Ring, pid: Word)
    requires Valid(q) && PushReturns(q, pid)
    ensures (Abstract(Push(q, pid).0), Push(q, pid).1) == Enqueue(Abstract(q), |q.data| - 1, pid) <==> IsExact(q, pid)
  {
    if !HeadIsSkipped(q) {
      PushRefines(q, pid);
    } else if pid != 0 {
      PushWhileHeadIsSkipped(q, pid);
    }
  }

  // ---------- runs ----------

  datatype Op = PushOp(pid: Word) | PopOp

  datatype Result = Pushed(ok: bool) | Popped(pid: Word)

  function Empty(maxSize: nat): (q: Ring)
    requires 1 <= maxSize < 0x1_0000
    ensures Valid(q) && Contents(q) == []
  {
    Ring(seq(maxSize, _ => 0), 0, 0, 0)
  }

  predicate OpReturns(q: Ring, op: Op) {
    op.PushOp? ==> PushReturns(q, op.pid)
  }

  function Apply(q: Ring, op: Op): (r: (Ring, Result))
    requires Valid(q) && OpReturns(q, op)
    ensures Valid(r.0) && |r.0.data| == |q.data|
  {
    match op
    case PushOp(pid) => (Push(q, pid).0, Pushed(Push(q, pid).1))
    case PopOp => (Pop(q).0, Popped(Pop(q).1))
  }

  function ApplyPlain(f: Fifo, capacity: nat, op: Op): (Fifo, Result) {
    match op
    case PushOp(pid) => (Enqueue(f, capacity, pid).0, Pushed(Enqueue(f, capacity, pid).1))
    case PopOp => (Dequeue(f).0, Popped(Dequeue(f).1))
  }

  /** Do all the operations return? */
  predicate AllReturn(q: Ring, ops: seq<Op>)
    requires Valid(q)
    decreases |ops|
  {
    ops == [] || (OpReturns(q, ops[0]) && AllReturn(Apply(q, ops[0]).0, ops[1..]))
  }

  function After(q: Ring, ops: seq<Op>): (r: Ring)
    requires Valid(q) && AllReturn(q, ops)
    ensures Valid(r) && |r.data| == |q.data|
    decreases |ops|
  {
    if ops == [] then q else After(Apply(q, ops[0]).0, ops[1..])
  }

  function Results(q: Ring, ops: seq<Op>): seq<Result>
    requires Valid(q) && AllReturn(q, ops)
    decreases |ops|
  {
    if ops == [] then [] else [Apply(q, ops[0]).1] + Results(Apply(q, ops[0]).0, ops[1..])
  }

  function PlainAfter(f: Fifo, capacity: nat, ops: seq<Op>): Fifo
    decreases |ops|
  {
    if ops == [] then f else PlainAfter(ApplyPlain(f, capacity, ops[0]).0, capacity, ops[1..])
  }

  function PlainResults(f: Fifo, capacity: nat, ops: seq<Op>): seq<Result>
    decreases |ops|
  {
    if ops == [] then []
    else [ApplyPlain(f, capacity, ops[0]).1] + PlainResults(ApplyPlain(f, capacity, ops[0]).0, capacity, ops[1..])
  }

  /** Is every push of the run made in a state where it is exact? */
  predicate AllExact(q: Ring, ops: seq<Op>)
    requires Valid(q)
    decreases |ops|
  {
    ops == [] || ((ops[0].PushOp? ==> IsExact(q, ops[0].pid)) && AllExact(Apply(q, ops[0]).0, ops[1..]))
  }

  /**
   Over every run whose pushes are exact, the ring cannot be told from a plain queue of one slot less:
   all calls return, with the same results, and the same PIDs wait in the same order.
   */
  lemma {:induction false} RunRefines(q: Ring, ops: seq<Op>)
    requires Valid(q) && AllExact(q, ops)
    ensures AllReturn(q, ops)
    ensures Results(q, ops) == PlainResults(Abstract(q), |q.data| - 1, ops)
    ensures Abstract(After(q, ops)) == PlainAfter(Abstract(q), |q.data| - 1, ops)
    decreases |ops|
  {
    if ops != [] {
      if ops[0].PushOp? {
        PushIsExactWhen(q, ops[0].pid);
      } else {
        PopRefines(q);
      }
      RunRefines(Apply(q, ops[0]).0, ops[1..]);
    }
  }

  /** No operation that returns makes a PID wait twice, whatever the state. */
  lemma {:induction false} ApplyKeepsDistinct(q: Ring, op: Op)
    requires Valid(q) && Distinct(Contents(q)) && OpReturns(q, op)
    ensures Distinct(Contents(Apply(q, op).0))
  {
    match op
    case PopOp => PopRefines(q);
    case PushOp(pid) =>
      if !HeadIsSkipped(q) {
        PushRefines(q, pid);
      }
  }

  lemma {:induction false} EveryRunIsDistinct(q: Ring, ops: seq<Op>)
    requires Valid(q) && Distinct(Contents(q)) && AllReturn(q, ops)
    ensures Distinct(Contents(After(q, ops)))
    decreases |ops|
  {
    if ops != [] {
      ApplyKeepsDistinct(q, ops[0]);
      EveryRunIsDistinct(Apply(q, ops[0]).0, ops[1..]);
    }
  }

  lemma {:induction false} OneMore(q: Ring, ops: seq<Op>)
    requires Valid(q) && ops != [] && OpReturns(q, ops[0]) && AllReturn(Apply(q, ops[0]).0, ops[1..])
    ensures AllReturn(q, ops) && After(q, ops) == After(Apply(q, ops[0]).0, ops[1..])
  {
  }

  /**
   The head is skipped after three calls on a ring of two slots. Then pushing the PID that was popped
   reports success and queues nothing, and pushing a new PID does not return.
   */
  lemma {:induction false} HeadCanBeSkipped(a: Word, b: Word, c: Word)
    requires a != 0 && b != 0 && c != 0 && a != b && c != a && c != b
    ensures var ops := [PushOp(a), PopOp, PushOp(b)];
            && AllReturn(Empty(2), ops)
            && var q := After(Empty(2), ops);
               && HeadIsSkipped(q) && Contents(q) == [b]
               && PushReturns(q, a) && Push(q, a) == (q, true)
               && !PushReturns(q, c)
  {
    var q0 := Empty(2);
    var ops := [PushOp(a), PopOp, PushOp(b)];
    var q1 := Ring([a, 0], 1, 0, 0);
    var q2 := Ring([a, 0], 1, 1, a);
    var q3 := Ring([a, b], 0, 1, a);
    assert Apply(q0, ops[0]).0 == q1 && Apply(q1, PopOp).0 == q2 && Apply(q2, PushOp(b)).0 == q3;
    assert ops[1..] == [PopOp, PushOp(b)] && [PopOp, PushOp(b)][1..] == [PushOp(b)];
    OneMore(q2, [PushOp(b)]);
    OneMore(q1, [PopOp, PushOp(b)]);
    OneMore(q0, ops);
    assert Contents(q3) == [b];
  }

}

/** The queue as the library has it, updated in place. */
module QueueCode {
  import opened Bytes
  import opened Queues

  class RdmQueue {
    const data: array<Word>
    var head: nat
    var tail: nat
    var previous: Word

    ghost function State(): Ring
      reads this, data
    {
      Ring(data[..], head, tail, previous)
    }

    ghost predicate Valid()
      reads this, data
    {
      Queues.Valid(State())
    }

    constructor (maxSize: nat)
      requires 1 <= maxSize < 0x1_0000
      ensures Valid() && fresh(data) && State() == Empty(maxSize)
    {
      data := new Word[maxSize](_ => 0);
      head, tail, previous := 0, 0, 0;
      new;
      assert data[..] == seq(maxSize, _ => 0);
    }

    /** Looks for a PID before it is pushed. */
    method Search(pid: Word) returns (found: bool)
      requires Valid() && SearchEnds(State(), pid)
      ensures found == IsFound(State(), pid)
    {
      ghost var q, k := State(), 0;
      ghost var last := |Contents(q)|;
      if HeadIsSkipped(q) {
        var at :| 0 <= at < |q.data| && q.data[at] == pid;
        last := EverySlotIsProbed(q, at);
      } else {
        SearchFollowsContents(q, last);
      }
      var i := tail;
      found := false;
      while i != head
        invariant i == Cursor(q, k) && k <= last && StopsAt(q, pid, last)
        invariant !HeadIsSkipped(q) ==> pid !in Contents(q)[..k]
        invariant HeadIsSkipped(q) ==> i > 0
        decreases last - k
      {
        if !HeadIsSkipped(q) {
          SearchFollowsContents(q, k);
        }
        if i == data.Length {
          i := 0;
        }
        if data[i] == pid {
          return true;
        }
        i := i + 1;
        k := k + 1;
      }
      SearchFollowsContents(q, k);
    }

    /** Pushes a PID, unless it is queued already. */
    method Push(pid: Word) returns (success: bool)
      requires Valid() && PushReturns(State(), pid)
      modifies this, data
      ensures Valid() && (State(), success) == Queues.Push(old(State()), pid)
    {
      if pid == 0 {
        return false;
      }
      success := Search(pid);
      NextIsModulo(head, data.Length);
      if !success && (head + 1) % data.Length != tail {
        data[head] := pid;
        head := head + 1;
        if head == data.Length {
          head := 0;
        }
        success := true;
      }
    }

    method Pop() returns (pid: Word)
      requires Valid()
      modifies this
      ensures Valid() && (State(), pid) == Queues.Pop(old(State()))
    {
      var size := Size();
      pid := 0;
      if size > 0 {
        pid := data[tail];
        tail := tail + 1;
        if tail == data.Length {
          tail := 0;
        }
        previous := pid;
      }
    }

    /** The number of PIDs that wait, up to 255. */
    method Size() returns (n: nat)
      requires Valid()
      ensures n == if |Contents(State())| > 255 then 255 else |Contents(State())|
    {
      var size := head - tail;
      if size < 0 {
        size := size + data.Length;
      }
      if size > 255 {
        size := 255;
      }
      n := size;
    }
  }
}
