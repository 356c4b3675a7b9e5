/**
 How much work a discovery takes, counted in ranges visited and in requests sent.
 */
module DiscoveryWork {
  import opened Uids
  import opened Discovery

  /** Something is received after a search only if a device is in the range. */
  ghost predicate SilentWhenEmpty(bus: Bus, devices: set<Address>) {
    forall log, r :: bus.reply(log + [UniqueBranch(r)]) != NoReply ==> Within(devices, r) != {}
  }

  function Within(devices: set<Address>, r: Range): set<Address> {
    set a | a in devices && r.lo <= a <= r.hi
  }

  lemma {:induction false} AttemptIsSilent(bus: Bus, devices: set<Address>, log: seq<Request>, r: Range, made: nat)
    requires SilentWhenEmpty(bus, devices) && made < ATTEMPTS
    ensures Attempt(bus, log, UniqueBranch(r), made).reply != NoReply ==> Within(devices, r) != {}
    decreases ATTEMPTS - made
  {
    var q := UniqueBranch(r);
    if !Settles(q, Send(bus, log + [q])) && made + 1 < ATTEMPTS {
      AttemptIsSilent(bus, devices, log + [q], r, made + 1);
    }
  }

  /** A visit to a range is at most three requests, on any bus. */
  lemma {:induction false} ThreeRequestsPerRange(bus: Bus, log: seq<Request>, r: Range)
    requires r.Proper()
    ensures var o := Search(bus, log, r);
            |o.log| <= |log| + ATTEMPTS * o.ranges
    decreases r.Width()
  {
    var v := VisitRange(bus, log, r);
    if v.split {
      ThreeRequestsPerRange(bus, v.log, r.LowerHalf());
      ThreeRequestsPerRange(bus, Search(bus, v.log, r.LowerHalf()).log, r.UpperHalf());
    }
  }

  lemma {:induction false} HalvesShareDevices(devices: set<Address>, r: Range)
    requires r.Proper() && r.lo < r.hi
    ensures |Within(devices, r)| == |Within(devices, r.LowerHalf())| + |Within(devices, r.UpperHalf())|
  {
    assert Within(devices, r) == Within(devices, r.LowerHalf()) + Within(devices, r.UpperHalf());
    assert Within(devices, r.LowerHalf()) !! Within(devices, r.UpperHalf());
  }

  /** A range spanning at most 2^depth addresses is split at most depth times for each device in it. */
  lemma {:induction false} SplitsPerDevice(bus: Bus, devices: set<Address>, log: seq<Request>, r: Range, depth: nat)
    requires SilentWhenEmpty(bus, devices) && r.Proper() && r.Width() <= Pow2(depth)
    ensures Search(bus, log, r).ranges <= 1 + 2 * depth * |Within(devices, r)|
    decreases depth
  {
    var v := VisitRange(bus, log, r);
    if v.split {
      var first := Search(bus, v.log, r.LowerHalf());
      var lower, upper := |Within(devices, r.LowerHalf())|, |Within(devices, r.UpperHalf())|;
      AttemptIsSilent(bus, devices, log, r, 0);
      HalvesShareDevices(devices, r);
      SplitsPerDevice(bus, devices, v.log, r.LowerHalf(), depth - 1);
      SplitsPerDevice(bus, devices, first.log, r.UpperHalf(), depth - 1);
      Distribute(depth, lower, upper);
    }
  }

  lemma {:induction false} Distribute(depth: nat, a: nat, b: nat)
    requires depth > 0 && a + b > 0
    ensures 3 + 2 * (depth - 1) * a + 2 * (depth - 1) * b <= 1 + 2 * depth * (a + b)
  {
    assert 2 * depth * (a + b) == 2 * (depth - 1) * a + 2 * (depth - 1) * b + 2 * (a + b);
  }

  /**
   With n devices on a bus without noise, at most 1 + 96n ranges are visited, and at most three
   requests are sent for each, after the one that un-mutes.
   */
  lemma {:induction false} WorkIsBounded(bus: Bus, devices: set<Address>, root: Range)
    requires SilentWhenEmpty(bus, devices) && IsRoot(root)
    ensures var o := Search(bus, UN_MUTE_ALL, root);
            o.ranges <= 1 + 96 * |devices| && |o.log| <= 4 + 288 * |devices|
  {
    var depth := DEPTH;
    InitialIsTiled(root);
    assert Initial(root).stack[0].Width() <= Pow2(depth);
    SplitsPerDevice(bus, devices, UN_MUTE_ALL, root, depth);
    ThreeRequestsPerRange(bus, UN_MUTE_ALL, root);
    WithinAtMostAll(devices, root);
  }

  lemma {:induction false} WithinAtMostAll(devices: set<Address>, r: Range)
    ensures |Within(devices, r)| <= |devices|
  {
    var others := devices - Within(devices, r);
    assert devices == Within(devices, r) + others;
    assert |devices| == |Within(devices, r)| + |others|;
  }
}
