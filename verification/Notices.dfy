/**
 Whatever interrupts, timer alarms and calls are interleaved, the end of a packet is declared at most
 once.
 */
module Notices {
  import opened Bytes
  import opened Drivers
  import opened Runs

  /** Does the event announce a packet? A break does, and the end of a transmission that a discovery reply follows. */
  predicate Announces(s: Driver, e: Event) {
    || (e.ReceiveInterrupt? && e.isBreak)
    || (e.TxDoneInterrupt? && ExpectsDiscoveryReply(s))
  }

  /** Can a packet be declared complete? */
  predicate Armed(s: Driver) {
    s.reading && IsLive(s.progress)
  }

  lemma {:induction false} OnlyArmedPortsDeclare(s: Driver, e: Event)
    requires Valid(s) && Consistent(s) && Enabled(s, e)
    ensures Apply(s, e).notice.Some? ==> Armed(s)
    ensures Apply(s, e).notice.Some? && !Announces(s, e) ==> !Armed(Apply(s, e).state)
  {
  }

  /**
   A packet that is declared other than by a break leaves the port idle, and the timer stopped. What else
   stops it is an alarm while nothing is sent; a controller's wait, and only a controller's, starts it.
   */
  lemma {:induction false} DeclaringStopsTimer(s: Driver, e: Event)
    requires Valid(s) && Consistent(s) && Enabled(s, e)
    ensures var o := Apply(s, e);
            && (o.notice.Some? && e.ReceiveInterrupt? && !e.isBreak ==> !o.state.timerRunning && o.state.status == Idle)
            && (e.TimerAlarm? && s.status != Sending ==> o.state == s.(timerRunning := false))
            && (e.TaskWaits? ==> (o.state.timerRunning <==> s.timerRunning || s.isController))
  {
  }

  lemma {:induction false} OnlyAnnouncementsArm(s: Driver, e: Event)
    requires Valid(s) && Consistent(s) && Enabled(s, e) && !Armed(s) && !Announces(s, e)
    ensures !Armed(Apply(s, e).state)
  {
  }

  /** Does the event of a run declare the end of a packet? */
  predicate Declares(states: seq<Driver>, events: seq<Event>, i: nat)
    requires i < |events| && |states| == |events| + 1 && IsStep(states, events, i)
    ensures Declares(states, events, i) ==> Armed(states[i])
    ensures Declares(states, events, i) && !Announces(states[i], events[i]) ==> !Armed(states[i + 1])
  {
    OnlyArmedPortsDeclare(states[i], events[i]);
    Apply(states[i], events[i]).notice.Some?
  }

  /** Does no event from `i` up to `j` announce a packet? */
  ghost predicate Quiet(states: seq<Driver>, events: seq<Event>, i: nat, j: nat)
    requires |states| == |events| + 1 && i <= j <= |events|
  {
    forall k :: i <= k < j ==> !Announces(states[k], events[k])
  }

  lemma {:induction false} StaysUnarmed(states: seq<Driver>, events: seq<Event>, i: nat, j: nat)
    requires IsRun(states, events) && i <= j <= |events| && !Armed(states[i]) && Quiet(states, events, i, j)
    ensures !Armed(states[j])
    decreases j - i
  {
    if i < j {
      assert IsStep(states, events, i);
      OnlyAnnouncementsArm(states[i], events[i]);
      StaysUnarmed(states, events, i + 1, j);
    }
  }

  /**
   Between any two notices of the end of a packet there is a break, or the end of a transmission that
   a discovery reply follows: no packet is declared complete twice. If the first notice is that of a
   break, the break itself is what comes between.
   */
  lemma {:induction false} AtMostOneNoticePerPacket(states: seq<Driver>, events: seq<Event>, i: nat, j: nat)
    requires IsRun(states, events) && i < j < |events|
    requires Declares(states, events, i) && Declares(states, events, j)
    ensures exists k :: i <= k < j && Announces(states[k], events[k])
  {
    if Quiet(states, events, i, j) {
      assert !Announces(states[i], events[i]);
      StaysUnarmed(states, events, i + 1, j);
    }
  }
}
