/**
 Discovery against responders that follow the protocol: every responder that the first request un-muted
 is reported, once, in address order, nothing else is, and none is muted before it is reported.
 */
module DiscoveryExact {
  import opened Uids
  import opened Discovery

  // ---------- one responder ----------

  /** The mute flag of the responder at `a` after it handles `q`. */
  predicate MutedBy(a: Address, muted: bool, q: Request) {
    match q
    case UniqueBranch(_) => muted
    case Mute(dest) => muted || Reaches(dest, a)
    case UnMute(dest) => muted && !Reaches(dest, a)
  }

  /** Does the responder at `a` send a reply to `q`? */
  predicate Answers(a: Address, muted: bool, q: Request) {
    match q
    case UniqueBranch(r) => !muted && r.lo <= a <= r.hi
    case Mute(dest) => Reaches(dest, a) && !IsBroadcastAddress(dest)
    case UnMute(dest) => Reaches(dest, a) && !IsBroadcastAddress(dest)
  }

  /** The mute flag of the responder at `a` after those requests of `log` that it heard. */
  predicate Muted(bus: Bus, a: Address, log: seq<Request>) {
    if log == [] then bus.wasMuted(a)
    else
      var before := Muted(bus, a, log[..|log| - 1]);
      if bus.hears(log, a) then MutedBy(a, before, log[|log| - 1]) else before
  }

  // ---------- a bus that follows the protocol ----------

  /** Of three transmissions of `q` in a row, one gets through, together with the reply to it. */
  predicate OneOfThreeSettles(bus: Bus, log: seq<Request>, q: Request) {
    || Settles(q, bus.reply(log + [q]))
    || Settles(q, bus.reply(log + [q] + [q]))
    || Settles(q, bus.reply(log + [q] + [q] + [q]))
  }

  /** When the responder at `a` answers, the controller receives something in one of three attempts. */
  predicate AnswerArrives(bus: Bus, log: seq<Request>, q: Request, a: Address) {
    (q.UniqueBranch? || q == Mute(a)) && Answers(a, Muted(bus, a, log), q) ==> OneOfThreeSettles(bus, log, q)
  }

  ghost predicate AnswersArrive(bus: Bus, devices: set<Address>) {
    forall log, q, a :: a in devices ==> AnswerArrives(bus, log, q, a)
  }

  /** A mute is acknowledged only by the responder it is addressed to, which has heard it. */
  ghost predicate AcksAreHonest(bus: Bus, devices: set<Address>) {
    forall log, dest :: !IsBroadcastAddress(dest) && bus.reply(log + [Mute(dest)]).Ack? ==>
      && dest in devices
      && bus.reply(log + [Mute(dest)]).src == dest
      && bus.hears(log + [Mute(dest)], dest)
  }

  /**
   The responders at `devices` share the bus. Up to two of any three equal requests, or the replies to
   them, may be lost, replies may collide, and there may be noise after a search that none answers.
   */
  ghost predicate Follows(bus: Bus, devices: set<Address>) {
    && (forall a :: a in devices ==> !IsBroadcastAddress(a))
    && AnswersArrive(bus, devices)
    && AcksAreHonest(bus, devices)
  }

  // ---------- what the attempts do ----------

  lemma {:induction false} AttemptIsSend(bus: Bus, log: seq<Request>, q: Request, made: nat)
    requires made < ATTEMPTS
    ensures var e := Attempt(bus, log, q, made);
            e.log == e.log[..|e.log| - 1] + [q] && e.reply == Send(bus, e.log)
    decreases ATTEMPTS - made
  {
    if !Settles(q, Send(bus, log + [q])) && made + 1 < ATTEMPTS {
      AttemptIsSend(bus, log + [q], q, made + 1);
    }
  }

  lemma {:induction false} AttemptSettles(bus: Bus, log: seq<Request>, q: Request)
    requires ExpectsReply(q) && OneOfThreeSettles(bus, log, q)
    ensures Settles(q, Attempt(bus, log, q, 0).reply)
  {
    var log1 := log + [q];
    var log2 := log1 + [q];
    assert Send(bus, log1) == bus.reply(log1);
    assert Send(bus, log2) == bus.reply(log2);
    assert Send(bus, log2 + [q]) == bus.reply(log2 + [q]);
    assert Attempt(bus, log2, q, 2).reply == bus.reply(log2 + [q]);
  }

  /** Attempts leave alone the flag of a responder that the request neither reaches nor can change. */
  lemma {:induction false} AttemptKeepsFlag(bus: Bus, a: Address, log: seq<Request>, q: Request, made: nat)
    requires made < ATTEMPTS
    requires q.UniqueBranch? || (q.Mute? && (!Reaches(q.dest, a) || Muted(bus, a, log)))
    ensures Muted(bus, a, Attempt(bus, log, q, made).log) == Muted(bus, a, log)
    decreases ATTEMPTS - made
  {
    var log' := log + [q];
    assert log'[..|log'| - 1] == log;
    assert Muted(bus, a, log') == Muted(bus, a, log);
    if !Settles(q, Send(bus, log')) && made + 1 < ATTEMPTS {
      AttemptKeepsFlag(bus, a, log', q, made + 1);
    }
  }

  lemma {:induction false} AckMutes(bus: Bus, devices: set<Address>, log: seq<Request>, dest: Address)
    requires AcksAreHonest(bus, devices) && Attempt(bus, log, Mute(dest), 0).reply.Ack?
    ensures dest in devices
    ensures Attempt(bus, log, Mute(dest), 0).reply == Ack(dest)
    ensures Muted(bus, dest, Attempt(bus, log, Mute(dest), 0).log)
  {
    var e := Attempt(bus, log, Mute(dest), 0);
    AttemptIsSend(bus, log, Mute(dest), 0);
    assert bus.reply(e.log[..|e.log| - 1] + [Mute(dest)]).Ack?;
  }

  // ---------- the invariant of the search ----------

  /** Everything below the frontier has been searched. */
  function Frontier(stack: seq<Range>): int {
    if stack == [] then MAX_ADDRESS + 1 else stack[|stack| - 1].lo
  }

  predicate Ascending(s: seq<Address>) {
    forall i, j :: 0 <= i < j < |s| ==> s[i] < s[j]
  }

  /** Is the responder still muted after the first request, which it may not have heard? */
  predicate StaysMuted(bus: Bus, a: Address) {
    Muted(bus, a, UN_MUTE_ALL)
  }

  /**
   `found` holds responders below the frontier, in ascending order, and all of those that the first
   request un-muted.
   */
  ghost predicate ReportedBelow(bus: Bus, devices: set<Address>, found: seq<Address>, frontier: int) {
    && Ascending(found)
    && (forall a :: a in found ==> a in devices && a < frontier)
    && (forall a :: a in devices && a < frontier && !StaysMuted(bus, a) ==> a in found)
  }

  /** The responders below the frontier are muted; of the others, those that the first request did not un-mute. */
  ghost predicate MutedBelow(bus: Bus, devices: set<Address>, log: seq<Request>, frontier: int) {
    forall a :: a in devices ==> (Muted(bus, a, log) <==> a < frontier || StaysMuted(bus, a))
  }

  ghost predicate Exact(bus: Bus, devices: set<Address>, s: State) {
    && Tiled(s.stack)
    && ReportedBelow(bus, devices, s.found, Frontier(s.stack))
    && MutedBelow(bus, devices, s.log, Frontier(s.stack))
  }

  lemma {:induction false} InitialIsExact(bus: Bus, devices: set<Address>, root: Range)
    requires IsRoot(root) && Follows(bus, devices)
    ensures Exact(bus, devices, Initial(root))
  {
    InitialIsTiled(root);
  }

  /** A responder that hears the first request is un-muted by it. */
  lemma {:induction false} HearingUnmutes(bus: Bus, a: Address)
    requires bus.hears(UN_MUTE_ALL, a)
    ensures !StaysMuted(bus, a)
  {
    assert Reaches(0xffff_ffff_ffff, a);
  }

  /** Handling a single address reports and mutes the responder there, if there is one, and no other. */
  lemma {:induction false} MuteVisit(bus: Bus, devices: set<Address>, log: seq<Request>, r: Range)
    requires Follows(bus, devices) && r.Proper() && r.lo == r.hi
    requires MutedBelow(bus, devices, log, r.lo)
    ensures var v := VisitRange(bus, log, r);
            && v.found == (if r.lo in devices then [r.lo] else [])
            && MutedBelow(bus, devices, v.log, r.hi + 1)
  {
    var dest := r.lo;
    var e := Attempt(bus, log, Mute(dest), 0);
    if e.reply.Ack? {
      AttemptIsSend(bus, log, Mute(dest), 0);
      AckMutes(bus, devices, log, dest);
    }
    if dest in devices {
      assert AnswerArrives(bus, log, Mute(dest), dest);
      AttemptSettles(bus, log, Mute(dest));
    }
    forall a | a in devices
      ensures Muted(bus, a, e.log) <==> a <= r.hi || StaysMuted(bus, a)
    {
      if a != dest {
        if Reaches(dest, a) {
          ReachesAtOrBelow(dest, a);
        }
        AttemptKeepsFlag(bus, a, log, Mute(dest), 0);
      }
    }
  }

  /** A range is given up only when no un-muted responder is in it, and no search changes a flag. */
  lemma {:induction false} SearchVisit(bus: Bus, devices: set<Address>, log: seq<Request>, r: Range)
    requires Follows(bus, devices) && r.Proper() && r.lo < r.hi
    requires MutedBelow(bus, devices, log, r.lo)
    ensures var v := VisitRange(bus, log, r);
            && v.found == []
            && (v.split || forall a :: a in devices && !StaysMuted(bus, a) ==> a < r.lo || r.hi < a)
            && MutedBelow(bus, devices, v.log, r.lo)
  {
    var q := UniqueBranch(r);
    forall a | a in devices
      ensures Muted(bus, a, VisitRange(bus, log, r).log) <==> a < r.lo || StaysMuted(bus, a)
    {
      AttemptKeepsFlag(bus, a, log, q, 0);
    }
    if !VisitRange(bus, log, r).split {
      forall a | a in devices && !StaysMuted(bus, a)
        ensures a < r.lo || r.hi < a
      {
        if r.lo <= a <= r.hi {
          assert AnswerArrives(bus, log, q, a);
          AttemptSettles(bus, log, q);
        }
      }
    }
  }

  lemma {:induction false} ReportNext(bus: Bus, devices: set<Address>, found: seq<Address>, a: Address)
    requires ReportedBelow(bus, devices, found, a)
    ensures ReportedBelow(bus, devices, found + (if a in devices then [a] else []), a + 1)
  {
    forall i | 0 <= i < |found|
      ensures found[i] < a
    {
      assert found[i] in found;
    }
  }

  /** Handling the top range moves the frontier past it, unless it is split. */
  lemma {:induction false} FrontierMoves(bus: Bus, s: State)
    requires s.stack != [] && Tiled(s.stack)
    ensures var r := s.stack[|s.stack| - 1];
            Frontier(Step(bus, s).stack) == if VisitRange(bus, s.log, r).split then r.lo else r.hi + 1
  {
  }

  lemma {:induction false} StepKeepsExact(bus: Bus, devices: set<Address>, s: State)
    requires Follows(bus, devices) && s.stack != [] && Exact(bus, devices, s)
    ensures Exact(bus, devices, Step(bus, s))
  {
    StepKeepsTiled(bus, s);
    var top := |s.stack| - 1;
    var r := s.stack[top];
    FrontierMoves(bus, s);
    if r.lo == r.hi {
      MuteVisit(bus, devices, s.log, r);
      ReportNext(bus, devices, s.found, r.lo);
    } else {
      SearchVisit(bus, devices, s.log, r);
    }
  }

  lemma {:induction false} EveryRunIsExact(bus: Bus, devices: set<Address>, root: Range, n: nat)
    requires IsRoot(root) && Follows(bus, devices)
    ensures Exact(bus, devices, Run(bus, root, n))
  {
    if n == 0 {
      InitialIsExact(bus, devices, root);
    } else {
      EveryRunIsExact(bus, devices, root, n - 1);
      if Run(bus, root, n - 1).stack != [] {
        StepKeepsExact(bus, devices, Run(bus, root, n - 1));
      }
    }
  }

  /**
   At every point of every run, the responders that are muted are the responders that were reported,
   and those that the first request did not un-mute.
   */
  lemma {:induction false} MutedExactlyWhenReported(bus: Bus, devices: set<Address>, root: Range, n: nat, a: Address)
    requires IsRoot(root) && Follows(bus, devices) && a in devices
    ensures Muted(bus, a, Run(bus, root, n).log) <==> a in Run(bus, root, n).found || StaysMuted(bus, a)
  {
    EveryRunIsExact(bus, devices, root, n);
  }

  lemma {:induction false} FinishIsExact(bus: Bus, devices: set<Address>, s: State)
    requires Follows(bus, devices) && Exact(bus, devices, s)
    ensures Exact(bus, devices, Finish(bus, s)) && Finish(bus, s).stack == []
    decreases Pending(s.stack)
  {
    if s.stack != [] {
      StepDecreases(bus, s);
      StepKeepsExact(bus, devices, s);
      FinishIsExact(bus, devices, Step(bus, s));
    }
  }

  lemma {:induction false} AscendingHasNoDuplicates(s: seq<Address>, elements: set<Address>)
    requires Ascending(s) && forall a :: a in s <==> a in elements
    ensures |s| == |elements|
  {
    if s == [] {
      assert elements == {};
    } else {
      var last := |s| - 1;
      var init := s[..last];
      assert s == init + [s[last]];
      AscendingHasNoDuplicates(init, elements - {s[last]});
    }
  }

  /** The result that is wanted: responders in ascending order, among them all that were un-muted. */
  ghost predicate IsExactResult(bus: Bus, devices: set<Address>, found: seq<Address>) {
    && Ascending(found)
    && (forall a :: a in found ==> a in devices)
    && (forall a :: a in devices && !StaysMuted(bus, a) ==> a in found)
    && (AllUnmuted(bus, devices) ==> |found| == |devices|)
  }

  ghost predicate AllUnmuted(bus: Bus, devices: set<Address>) {
    forall a :: a in devices ==> !StaysMuted(bus, a)
  }

  lemma {:induction false} ExactAtTheEnd(bus: Bus, devices: set<Address>, found: seq<Address>)
    requires ReportedBelow(bus, devices, found, MAX_ADDRESS + 1) && forall a :: a in devices ==> !IsBroadcastAddress(a)
    ensures IsExactResult(bus, devices, found)
  {
    if AllUnmuted(bus, devices) {
      AscendingHasNoDuplicates(found, devices);
    }
  }

  /**
   Discovery is exact: every responder that the first request un-muted is reported, each once and in
   ascending order, and nothing but responders is. If all were un-muted, those reported are all the
   responders, and their number is that of the responders.
   */
  lemma {:induction false} DiscoveryFindsAll(bus: Bus, devices: set<Address>, root: Range)
    requires IsRoot(root) && Follows(bus, devices)
    ensures IsExactResult(bus, devices, Search(bus, UN_MUTE_ALL, root).found)
  {
    InitialIsExact(bus, devices, root);
    FinishIsExact(bus, devices, Initial(root));
    IterativeIsRecursive(bus, root);
    ExactAtTheEnd(bus, devices, Finish(bus, Initial(root)).found);
  }
}
