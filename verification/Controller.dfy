/**
 The controller's discovery functions as the library has them: an array of 49 branches that is popped,
 and overwritten, in place, and a callback that is told of each device found.
 */
module Controller {
  import opened Uids
  import opened Discovery
  import opened DiscoveryExact

  /** The parameter data of a DISC_UNIQUE_BRANCH request. */
  datatype Branch = Branch(lower: Uid, upper: Uid)

  function ToRange(b: Branch): Range {
    Range(Value(b.lower), Value(b.upper))
  }

  function ToRanges(bs: seq<Branch>): (rs: seq<Range>)
    ensures |rs| == |bs| && forall i :: 0 <= i < |bs| ==> rs[i] == ToRange(bs[i])
  {
    seq(|bs|, i requires 0 <= i < |bs| => ToRange(bs[i]))
  }

  function ToAddresses(us: seq<Uid>): (vs: seq<Address>)
    ensures |vs| == |us| && forall i :: 0 <= i < |us| ==> vs[i] == Value(us[i])
  {
    seq(|us|, i requires 0 <= i < |us| => Value(us[i]))
  }

  /** The context of the default callback: the caller's array, which keeps the first `num` UIDs reported. */
  class Context {
    const num: nat
    const uids: array?<Uid>
    ghost var reported: seq<Uid>

    ghost predicate Valid()
      reads this, uids
    {
      uids != null ==>
        && num <= uids.Length
        && forall i :: 0 <= i < num && i < |reported| ==> uids[i] == reported[i]
    }

    constructor (uids: array?<Uid>, num: nat)
      requires uids != null ==> num <= uids.Length
      ensures Valid() && reported == [] && this.uids == uids && this.num == num
    {
      this.uids, this.num, this.reported := uids, num, [];
    }

    method Callback(uid: Uid, numFound: nat)
      requires Valid() && numFound == |reported|
      modifies this, uids
      ensures Valid() && reported == old(reported) + [uid]
      ensures uids != null ==> uids[num..] == old(uids[num..])
    {
      if numFound < num && uids != null {
        uids[numFound] := uid;
      }
      reported := reported + [uid];
    }
  }

  /**
   Pushes the halves of the branch in slot `top`, the lower one last. The upper half reuses the upper
   bound that is still in the slot.
   */
  method PushHalves(stack: array<Branch>, top: nat)
    requires top + 1 < stack.Length
    modifies stack
    ensures stack[..top] == old(stack[..top])
    ensures var r := old(ToRange(stack[top]));
            r.Proper() && r.lo < r.hi ==>
                ToRange(stack[top]) == r.UpperHalf() && ToRange(stack[top + 1]) == r.LowerHalf()
  {
    var firstLower := stack[top].lower;
    var mid := (Value(stack[top].lower) + Value(stack[top].upper)) / 2;
    stack[top] := stack[top].(lower := FromValue(mid + 1));
    stack[top + 1] := Branch(firstLower, FromValue(mid));
    ValueRoundTrip(mid);
    if mid < MAX_ADDRESS {
      ValueRoundTrip(mid + 1);
    }
  }

  lemma {:induction false} PushedHalves(before: seq<Branch>, after: seq<Branch>, top: nat)
    requires top < |before| && top + 1 < |after| && after[..top] == before[..top] && AllProper(ToRanges(before[..top]))
    requires var r := ToRange(before[top]);
             r.Proper() && r.lo < r.hi && ToRange(after[top]) == r.UpperHalf() &&
                 ToRange(after[top + 1]) == r.LowerHalf()
    ensures ToRanges(after[..top + 2]) == Replace(ToRanges(before[..top]), ToRange(before[top]), true)
  {
    assert after[..top + 2] == before[..top] + [after[top], after[top + 1]];
  }

  /** A controller on a bus, with the requests it has sent. */
  class Port {
    const bus: Bus
    var log: seq<Request>

    constructor (bus: Bus)
      ensures this.bus == bus && log == []
    {
      this.bus, log := bus, [];
    }

    /** Sends one request and waits for the reply, unless it is a broadcast that expects none. */
    method SendRequest(q: Request) returns (ack: Reply)
      modifies this
      ensures log == old(log) + [q] && ack == Send(bus, log)
    {
      log := log + [q];
      if !q.UniqueBranch? && IsBroadcastAddress(q.dest) {
        return NoReply;
      }
      ack := bus.reply(log);
    }

    method SendDiscUniqueBranch(branch: Branch) returns (ack: Reply)
      modifies this
      ensures log == old(log) + [UniqueBranch(ToRange(branch))] && ack == Send(bus, log)
    {
      ack := SendRequest(UniqueBranch(ToRange(branch)));
    }

    method SendDiscMute(dest: Uid) returns (ack: Reply)
      modifies this
      ensures log == old(log) + [Mute(Value(dest))] && ack == Send(bus, log)
    {
      ack := SendRequest(Mute(Value(dest)));
    }

    method SendDiscUnMute(dest: Uid) returns (ack: Reply)
      modifies this
      ensures log == old(log) + [UnMute(Value(dest))] && ack == Send(bus, log)
    {
      ack := SendRequest(UnMute(Value(dest)));
    }

    /** Tries to mute a device, three times at most. */
    method MuteDevice(dest: Uid) returns (ack: Reply)
      modifies this
      ensures Exchange(ack, log) == Attempt(bus, old(log), Mute(Value(dest)), 0)
    {
      var attempts := 0;
      ack := SendDiscMute(dest);
      while !ack.Ack? && attempts + 1 < ATTEMPTS
        invariant attempts < ATTEMPTS && log != []
        invariant Attempt(bus, old(log), Mute(Value(dest)), 0) ==
                  if !ack.Ack? && attempts + 1 < ATTEMPTS
                  then Attempt(bus, log, Mute(Value(dest)), attempts + 1)
                  else Exchange(ack, log)
        decreases ATTEMPTS - attempts
      {
        attempts := attempts + 1;
        ack := SendDiscMute(dest);
      }
    }

    /** Asks whether any device is in a branch, three times at most. */
    method SearchBranch(branch: Branch) returns (ack: Reply)
      modifies this
      ensures Exchange(ack, log) == Attempt(bus, old(log), UniqueBranch(ToRange(branch)), 0)
    {
      var attempts := 0;
      ack := SendDiscUniqueBranch(branch);
      while ack == NoReply && attempts + 1 < ATTEMPTS
        invariant attempts < ATTEMPTS && log != []
        invariant Attempt(bus, old(log), UniqueBranch(ToRange(branch)), 0) ==
                  if ack == NoReply && attempts + 1 < ATTEMPTS
                  then Attempt(bus, log, UniqueBranch(ToRange(branch)), attempts + 1)
                  else Exchange(ack, log)
        decreases ATTEMPTS - attempts
      {
        attempts := attempts + 1;
        ack := SendDiscUniqueBranch(branch);
      }
    }

    /**
     Handles the branch in slot `top`, which was just popped, and pushes its halves if something
     answered.
     */
    method VisitTop(stack: array<Branch>, top: nat, context: Context, numFound: nat)
      returns (stackSize: nat, num: nat)
      requires stack.Length == STACK_SLOTS && top < STACK_SLOTS
      requires context.Valid() && numFound == |context.reported|
      requires AllProper(ToRanges(stack[..top + 1]))
      requires top == DEPTH ==> Value(stack[top].lower) == Value(stack[top].upper)
      modifies this, stack, context, context.uids
      ensures context.Valid() && num == |context.reported|
      ensures stackSize <= STACK_SLOTS
      ensures State(ToRanges(stack[..stackSize]), log, ToAddresses(context.reported)) ==
              Step(bus, old(State(ToRanges(stack[..top + 1]), log, ToAddresses(context.reported))))
    {
      stackSize, num := top, numFound;
      ghost var ranges := ToRanges(stack[..top + 1]);
      assert ToRanges(stack[..top]) == ranges[..top] && ToRange(stack[top]) == ranges[top];
      OrderIsAddressOrder(stack[top].lower, stack[top].upper);
      if IsEq(stack[top].lower, stack[top].upper) {
        var ack := MuteDevice(stack[top].lower);
        if ack.Ack? {
          ValueRoundTrip(ack.src);
          context.Callback(FromValue(ack.src), num);
          num := num + 1;
        }
      } else {
        var ack := SearchBranch(stack[top]);
        if ack != NoReply {
          ghost var before := stack[..];
          assert before[..top] == stack[..top];
          PushHalves(stack, top);
          stackSize := stackSize + 2;
          assert stack[..][..top] == stack[..top] && stack[..][..top + 2] == stack[..top + 2];
          PushedHalves(before, stack[..], top);
        }
      }
    }

    /**
     Discovers the devices on the bus. Whatever the bus does, the callback is told of the devices that
     the recursive search finds, in the order in which it finds them, and no more than 49 slots are used.
     */
    method DiscoverWithCallback(context: Context) returns (numFound: nat)
      requires context.Valid() && context.reported == [] && log == []
      modifies this, context, context.uids
      ensures context.Valid() && numFound == |context.reported|
      ensures forall root :: IsRoot(root) ==>
        && ToAddresses(context.reported) == Search(bus, UN_MUTE_ALL, root).found
        && log == Search(bus, UN_MUTE_ALL, root).log
    {
      var stack := new Branch[STACK_SLOTS](_ => Branch(Uid(0, 0), UID_MAX));
      var stackSize: nat := 1;
      stack[0] := Branch(Uid(0, 0), UID_MAX);
      numFound := 0;

      var _ := SendDiscUnMute(BROADCAST_ALL);

      ghost var root := ToRange(stack[0]);
      ghost var s := Initial(root);
      InitialIsTiled(root);
      assert ToRanges(stack[..1]) == [root];
      while stackSize > 0
        invariant fresh(stack) && stackSize <= stack.Length == STACK_SLOTS
        invariant context.Valid() && numFound == |context.reported|
        invariant s == State(ToRanges(stack[..stackSize]), log, ToAddresses(context.reported))
        invariant Tiled(s.stack)
        invariant Finish(bus, s) == Finish(bus, Initial(root))
        decreases Pending(s.stack)
      {
        StepDecreases(bus, s);
        StepKeepsTiled(bus, s);
        if stackSize == STACK_SLOTS {
          FullStackEndsInAddress(s.stack);
        }
        stackSize, numFound := VisitTop(stack, stackSize - 1, context, numFound);
        s := Step(bus, s);
      }
      IterativeIsRecursive(bus, root);
    }

    /**
     Discovers the devices on the bus and stores the first `num` UIDs in the caller's array. On a bus
     that follows the protocol the array holds responders in ascending order, and if all of them were
     un-muted, the result is their number.
     */
    method DiscoverDevicesSimple(uids: array?<Uid>, num: nat, ghost devices: set<Address>) returns (found: nat)
      requires uids != null ==> num <= uids.Length
      requires log == []
      modifies this, uids
      ensures Follows(bus, devices) && AllUnmuted(bus, devices) ==> found == |devices|
      ensures uids != null && Follows(bus, devices) ==>
        && (forall i :: 0 <= i < num && i < found ==> Value(uids[i]) in devices)
        && (forall i, j :: 0 <= i < j < num && j < found ==> Value(uids[i]) < Value(uids[j]))
    {
      var context := new Context(uids, num);
      found := DiscoverWithCallback(context);
      if Follows(bus, devices) {
        ghost var root := Range(0, MAX_ADDRESS);
        DiscoveryFindsAll(bus, devices, root);
        ReportedAreDevices(bus, devices, context.reported);
      }
    }
  }

  lemma {:induction false} ReportedAreDevices(bus: Bus, devices: set<Address>, reported: seq<Uid>)
    requires IsExactResult(bus, devices, ToAddresses(reported))
    ensures forall i :: 0 <= i < |reported| ==> Value(reported[i]) in devices
    ensures forall i, j :: 0 <= i < j < |reported| ==> Value(reported[i]) < Value(reported[j])
  {
    assert forall i :: 0 <= i < |reported| ==> ToAddresses(reported)[i] in devices;
  }
}
