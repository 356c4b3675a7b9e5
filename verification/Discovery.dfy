/**
 The controller's search for devices (section 7 of ANSI E1.20-2010), as a specification over 48-bit
 addresses: a binary search run over a stack of 49 ranges, and the recursive search it stands for.
 Nothing is assumed of the bus here.
 */
module Discovery {
  import opened Uids

  datatype Range = Range(lo: Address, hi: Address) {
    predicate Proper() {
      lo <= hi <= MAX_ADDRESS
    }

    function Width(): int {
      hi - lo + 1
    }

    function Mid(): Address {
      (lo + hi) / 2
    }

    function LowerHalf(): Range {
      Range(lo, Mid())
    }

    function UpperHalf(): Range
      requires lo < hi
    {
      Range(Mid() + 1, hi)
    }
  }

  datatype Request =
    | UniqueBranch(range: Range)
    | Mute(dest: Address)
    | UnMute(dest: Address)

  /** How a request ended: no packet, an unreadable one, an ACK, or some other response type. */
  datatype Reply = NoReply | Invalid | Ack(src: Address) | OtherType

  /**
   Everything outside the controller, as a function of the requests it has sent so far. `reply` is
   what comes back after the last one, `hears` whether a device received the last one, and
   `wasMuted` whether a device is muted before the first one. As all three are arbitrary, losses,
   noise and lies are included.
   */
  datatype Bus = Bus(
    reply: seq<Request> -> Reply,
    hears: (seq<Request>, Address) -> bool,
    wasMuted: Address -> bool
  )

  const DEPTH := 48
  const STACK_SLOTS := 49
  const ATTEMPTS := 3
  const UN_MUTE_ALL: seq<Request> := [UnMute(0xffff_ffff_ffff)]

  /** The controller listens for a reply unless the request is a broadcast that expects none. */
  predicate ExpectsReply(q: Request) {
    q.UniqueBranch? || !IsBroadcastAddress(q.dest)
  }

  /** The result of sending the last request of `log`. */
  function Send(bus: Bus, log: seq<Request>): Reply
    requires log != []
  {
    if ExpectsReply(log[|log| - 1]) then bus.reply(log) else NoReply
  }

  /** A search is repeated until anything is received, a mute until it is acknowledged. */
  predicate Settles(q: Request, r: Reply) {
    if q.UniqueBranch? then r != NoReply else r.Ack?
  }

  datatype Exchange = Exchange(reply: Reply, log: seq<Request>)

  /** Sends `q` until it settles or three attempts, of which `made` are past, are used up. */
  function Attempt(bus: Bus, log: seq<Request>, q: Request, made: nat): (e: Exchange)
    requires made < ATTEMPTS
    ensures log < e.log && |e.log| <= |log| + ATTEMPTS - made
    decreases ATTEMPTS - made
  {
    var log' := log + [q];
    var r := Send(bus, log');
    if !Settles(q, r) && made + 1 < ATTEMPTS then Attempt(bus, log', q, made + 1) else Exchange(r, log')
  }

  // ---------- the loop ----------

  /** The pending ranges, the requests sent so far, and the addresses reported, in callback order. */
  datatype State = State(stack: seq<Range>, log: seq<Request>, found: seq<Address>)

  /** The range a discovery starts with. */
  predicate IsRoot(r: Range) {
    r.lo == 0 && r.hi == MAX_ADDRESS
  }

  function Initial(root: Range): State {
    State([root], UN_MUTE_ALL, [])
  }

  predicate AllProper(stack: seq<Range>) {
    forall i :: 0 <= i < |stack| ==> stack[i].Proper()
  }

  /** What handling one range comes to: the address reported, if any, and whether the range is split. */
  datatype Visit = Visit(found: seq<Address>, log: seq<Request>, split: bool)

  function VisitRange(bus: Bus, log: seq<Request>, r: Range): (v: Visit)
    requires r.Proper()
    ensures v.split ==> r.lo < r.hi && v.found == []
    ensures log < v.log && |v.log| <= |log| + ATTEMPTS
  {
    if r.lo == r.hi then
      var e := Attempt(bus, log, Mute(r.lo), 0);
      Visit(if e.reply.Ack? then [e.reply.src] else [], e.log, false)
    else
      var e := Attempt(bus, log, UniqueBranch(r), 0);
      Visit([], e.log, e.reply != NoReply)
  }

  /** What the stack below a range becomes once that range is handled. */
  function Replace(rest: seq<Range>, r: Range, split: bool): (stack: seq<Range>)
    requires AllProper(rest) && r.Proper() && (split ==> r.lo < r.hi)
    ensures AllProper(stack)
  {
    if split then rest + [r.UpperHalf(), r.LowerHalf()] else rest
  }

  /** One round of the search loop. */
  function Step(bus: Bus, s: State): State
    requires s.stack != [] && AllProper(s.stack)
  {
    var top := |s.stack| - 1;
    var range, rest := s.stack[top], s.stack[..top];
    var v := VisitRange(bus, s.log, range);
    State(Replace(rest, range, v.split), v.log, s.found + v.found)
  }

  /** Twice the number of addresses pending, less the number of ranges they are held in. */
  function Pending(stack: seq<Range>): (n: nat)
    requires AllProper(stack)
  {
    if stack == [] then 0
    else Pending(stack[..|stack| - 1]) + 2 * stack[|stack| - 1].Width() - 1
  }

  lemma {:induction false} StepDecreases(bus: Bus, s: State)
    requires s.stack != [] && AllProper(s.stack)
    ensures AllProper(Step(bus, s).stack)
    ensures Pending(Step(bus, s).stack) < Pending(s.stack)
  {
    var top := |s.stack| - 1;
    var r, rest, next := s.stack[top], s.stack[..top], Step(bus, s).stack;
    if next != rest {
      assert next[..top + 1] == rest + [r.UpperHalf()];
      assert next[..top + 1][..top] == rest;
    }
  }

  /** The whole loop: rounds until no range is pending. */
  function Finish(bus: Bus, s: State): State
    requires AllProper(s.stack)
    decreases Pending(s.stack)
  {
    if s.stack == [] then s
    else
      StepDecreases(bus, s);
      Finish(bus, Step(bus, s))
  }

  // ---------- the shape of the stack ----------

  function Pow2(n: nat): (p: nat)
    ensures p > 0
  {
    if n == 0 then 1 else 2 * Pow2(n - 1)
  }

  lemma {:induction false} Pow2OfDepth()
    ensures Pow2(DEPTH) == 0x1_0000_0000_0000
  {
    Pow2Plus8(0);
    Pow2Plus8(8);
    Pow2Plus8(16);
    Pow2Plus8(24);
    Pow2Plus8(32);
    Pow2Plus8(40);
  }

  lemma {:induction false} Pow2Plus2(n: nat)
    ensures Pow2(n + 2) == 4 * Pow2(n)
  {
    assert Pow2(n + 2) == 2 * Pow2(n + 1);
    assert Pow2(n + 1) == 2 * Pow2(n);
  }

  lemma {:induction false} Pow2Plus4(n: nat)
    ensures Pow2(n + 4) == 16 * Pow2(n)
  {
    Pow2Plus2(n);
    Pow2Plus2(n + 2);
  }

  lemma {:induction false} Pow2Plus8(n: nat)
    ensures Pow2(n + 8) == 0x100 * Pow2(n)
  {
    Pow2Plus4(n);
    Pow2Plus4(n + 4);
  }

  /**
   What every state of every search satisfies: at most 49 ranges, the one in slot i spanning at most
   2^(48-i) addresses, each directly below the one in the slot before it, the first ending at UID_MAX.
   */
  predicate Tiled(stack: seq<Range>) {
    && AllProper(stack)
    && (stack != [] ==> stack[0].hi == MAX_ADDRESS)
    && Bounded(stack)
    && Contiguous(stack)
  }

  predicate Bounded(stack: seq<Range>) {
    && |stack| <= STACK_SLOTS
    && (forall i :: 0 <= i < |stack| ==> stack[i].Width() <= Pow2(DEPTH - i))
  }

  predicate Contiguous(stack: seq<Range>) {
    forall i, j :: 0 <= i < |stack| && j == i + 1 < |stack| ==> stack[j].hi + 1 == stack[i].lo
  }

  lemma {:induction false} InitialIsTiled(root: Range)
    requires IsRoot(root)
    ensures Tiled(Initial(root).stack)
  {
    Pow2OfDepth();
  }

  /** When all 49 slots are in use, the top range is a single address, which is never split. */
  lemma {:induction false} FullStackEndsInAddress(stack: seq<Range>)
    requires Tiled(stack) && |stack| == STACK_SLOTS
    ensures stack[DEPTH].lo == stack[DEPTH].hi
  {
    assert stack[DEPTH].Width() <= Pow2(0);
  }

  lemma {:induction false} SplitKeepsBounded(rest: seq<Range>, r: Range)
    requires AllProper(rest) && r.Proper() && r.lo < r.hi && Bounded(rest + [r])
    ensures Bounded(rest + [r.UpperHalf(), r.LowerHalf()])
  {
    var top, stack := |rest|, rest + [r];
    assert stack[top].Width() <= Pow2(DEPTH - top);
    if top == DEPTH {
      assert false;
    }
    assert Pow2(DEPTH - top) == 2 * Pow2(DEPTH - (top + 1));
    forall i | 0 <= i < top
      ensures rest[i].Width() <= Pow2(DEPTH - i)
    {
      assert stack[i] == rest[i];
    }
  }

  /** Splitting the top range never needs a 50th slot and keeps the ranges tiled, whatever the bus does. */
  lemma {:induction false} StepKeepsTiled(bus: Bus, s: State)
    requires s.stack != [] && Tiled(s.stack)
    ensures Tiled(Step(bus, s).stack)
  {
    var top := |s.stack| - 1;
    assert s.stack == s.stack[..top] + [s.stack[top]];
    if VisitRange(bus, s.log, s.stack[top]).split {
      SplitKeepsBounded(s.stack[..top], s.stack[top]);
    }
  }

  // ---------- the recursive search ----------

  /** What a search reports, the requests sent by its end, and how many ranges it visited. */
  datatype Outcome = Outcome(found: seq<Address>, log: seq<Request>, ranges: nat) {
    function Then(next: Outcome): Outcome {
      Outcome(found + next.found, next.log, ranges + next.ranges)
    }
  }

  /** The standard's form of the search: mute a single address, else ask and search both halves. */
  function Search(bus: Bus, log: seq<Request>, r: Range): Outcome
    requires r.Proper()
    decreases r.Width()
  {
    var v := VisitRange(bus, log, r);
    if !v.split then Outcome(v.found, v.log, 1)
    else
      var first := Search(bus, v.log, r.LowerHalf());
      var both := first.Then(Search(bus, first.log, r.UpperHalf()));
      both.(ranges := both.ranges + 1)
  }

  /** The recursive search of each range of a stack, last one first. */
  function SearchAll(bus: Bus, log: seq<Request>, stack: seq<Range>): Outcome
    requires AllProper(stack)
    decreases |stack|
  {
    if stack == [] then Outcome([], log, 0)
    else
      var first := Search(bus, log, stack[|stack| - 1]);
      first.Then(SearchAll(bus, first.log, stack[..|stack| - 1]))
  }

  lemma {:induction false} SearchTop(bus: Bus, log: seq<Request>, rest: seq<Range>, r: Range)
    requires AllProper(rest) && r.Proper()
    ensures AllProper(rest + [r])
    ensures var first := Search(bus, log, r);
            SearchAll(bus, log, rest + [r]) == first.Then(SearchAll(bus, first.log, rest))
  {
    assert (rest + [r])[..|rest|] == rest;
  }

  lemma {:induction false} ThenAssociates(a: Outcome, b: Outcome, c: Outcome)
    ensures a.Then(b).Then(c) == a.Then(b.Then(c))
  {
  }

  lemma {:induction false} SearchTopTwo(bus: Bus, log: seq<Request>, rest: seq<Range>, upper: Range, lower: Range)
    requires AllProper(rest) && upper.Proper() && lower.Proper()
    ensures AllProper(rest + [upper, lower])
    ensures var first := Search(bus, log, lower);
            var second := Search(bus, first.log, upper);
            SearchAll(bus, log, rest + [upper, lower]) == first.Then(second).Then(SearchAll(bus, second.log, rest))
  {
    assert rest + [upper, lower] == (rest + [upper]) + [lower];
    SearchTop(bus, log, rest + [upper], lower);
    var first := Search(bus, log, lower);
    var second := Search(bus, first.log, upper);
    SearchTop(bus, first.log, rest, upper);
    ThenAssociates(first, second, SearchAll(bus, second.log, rest));
  }

  lemma {:induction false} VisitFollowsSearch(bus: Bus, log: seq<Request>, rest: seq<Range>, r: Range)
    requires AllProper(rest) && r.Proper()
    ensures AllProper(rest + [r])
    ensures var v := VisitRange(bus, log, r);
            SearchAll(bus, log, rest + [r]) ==
            Outcome(v.found, v.log, 1).Then(SearchAll(bus, v.log, Replace(rest, r, v.split)))
  {
    var v := VisitRange(bus, log, r);
    SearchTop(bus, log, rest, r);
    if v.split {
      SearchTopTwo(bus, v.log, rest, r.UpperHalf(), r.LowerHalf());
    }
  }

  lemma {:induction false} StepFollowsSearch(bus: Bus, s: State)
    requires s.stack != [] && AllProper(s.stack)
    ensures AllProper(Step(bus, s).stack)
    ensures var before, s' := SearchAll(bus, s.log, s.stack), Step(bus, s);
            var after := SearchAll(bus, s'.log, s'.stack);
            && s.found + before.found == s'.found + after.found
            && before.log == after.log
            && before.ranges == after.ranges + 1
  {
    StepDecreases(bus, s);
    var top := |s.stack| - 1;
    assert s.stack == s.stack[..top] + [s.stack[top]];
    VisitFollowsSearch(bus, s.log, s.stack[..top], s.stack[top]);
    var v, s' := VisitRange(bus, s.log, s.stack[top]), Step(bus, s);
    ThenAssociates(Outcome(s.found, s.log, 0), Outcome(v.found, v.log, 1), SearchAll(bus, s'.log, s'.stack));
  }

  /** From any stack of ranges, the loop ends where the recursive search of those ranges ends. */
  lemma {:induction false} FinishIsSearch(bus: Bus, s: State)
    requires AllProper(s.stack)
    ensures var r := SearchAll(bus, s.log, s.stack);
            Finish(bus, s) == State([], r.log, s.found + r.found)
    decreases Pending(s.stack)
  {
    if s.stack != [] {
      StepDecreases(bus, s);
      StepFollowsSearch(bus, s);
      FinishIsSearch(bus, Step(bus, s));
    }
  }

  /**
   The iterative search reports the same addresses in the same order, and sends the same requests, as
   the recursive search of the same range against the same bus, whatever that bus does.
   */
  lemma {:induction false} IterativeIsRecursive(bus: Bus, root: Range)
    requires root.Proper()
    ensures var r := Search(bus, UN_MUTE_ALL, root);
            Finish(bus, Initial(root)) == State([], r.log, r.found)
  {
    FinishIsSearch(bus, Initial(root));
  }

  // ---------- every run, and the bound of 49 slots ----------

  /** The state after n rounds, or the last one if the search ended earlier. */
  function Run(bus: Bus, root: Range, n: nat): (s: State)
    requires root.Proper()
    ensures AllProper(s.stack)
  {
    if n == 0 then Initial(root)
    else
      var s := Run(bus, root, n - 1);
      if s.stack == [] then s
      else
        StepDecreases(bus, s);
        Step(bus, s)
  }

  /** Every state of every search is tiled, so no slot past the 49th is ever written. */
  lemma {:induction false} EveryRunIsTiled(bus: Bus, root: Range, n: nat)
    requires IsRoot(root)
    ensures Tiled(Run(bus, root, n).stack)
  {
    if n == 0 {
      InitialIsTiled(root);
    } else {
      EveryRunIsTiled(bus, root, n - 1);
      if Run(bus, root, n - 1).stack != [] {
        StepKeepsTiled(bus, Run(bus, root, n - 1));
      }
    }
  }

  /** A bus on which every request meets noise. */
  ghost predicate Jammed(bus: Bus) {
    forall log :: bus.reply(log) == Invalid
  }

  lemma {:induction false} JammedStep(bus: Bus, s: State)
    requires s.stack != [] && AllProper(s.stack) && Jammed(bus)
    requires s.stack[|s.stack| - 1].lo < s.stack[|s.stack| - 1].hi
    ensures var r, next := s.stack[|s.stack| - 1], Step(bus, s).stack;
            |next| == |s.stack| + 1 && next[|s.stack|] == r.LowerHalf()
  {
  }

  /** On a jammed bus the search descends to address 0, one more slot in use at each level. */
  lemma {:induction false} JammedBusDescends(bus: Bus, root: Range, n: nat, left: nat)
    requires IsRoot(root) && n + left == DEPTH && Jammed(bus)
    ensures var stack := Run(bus, root, n).stack;
            && |stack| == n + 1
            && stack[n].lo == 0
            && Pow2(left) - 1 <= stack[n].hi + 1 <= Pow2(left)
            && (n > 0 ==> stack[n].hi + 1 == Pow2(left))
  {
    if n == 0 {
      Pow2OfDepth();
    } else {
      JammedBusDescends(bus, root, n - 1, left + 1);
      JammedStep(bus, Run(bus, root, n - 1));
    }
  }

  /** The stack cannot be smaller than 49 slots. */
  lemma {:induction false} AllSlotsAreNeeded(bus: Bus, root: Range)
    requires IsRoot(root) && Jammed(bus)
    ensures |Run(bus, root, DEPTH).stack| == STACK_SLOTS
  {
    JammedBusDescends(bus, root, DEPTH, 0);
  }
}
