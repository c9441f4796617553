/** Alarm deadlines on a 32-bit tick counter that wraps.  A deadline is a 32-bit time and one bit that
    says the counter must wrap before the time counts.  Everything here is about ticks as the counter
    shows them; the unbounded tick number `now` exists only in the statements. */
module AlarmTime {
  import opened Common

  datatype Deadline = Deadline(time: u32, rollover: bool)

  /** The deadline `alt_alarm_start` sets, `nticks` ticks from now. */
  function Arm(current: u32, nticks: u32): Deadline {
    var time := (nticks + current + 1) % M;
    Deadline(time, time < current)
  }

  /** A tick at which the counter has come round to zero clears the rollover bit. */
  function Roll(d: Deadline, counter: u32): Deadline {
    if d.rollover && counter == 0 then d.(rollover := false) else d
  }

  predicate Expired(d: Deadline, counter: u32) {
    d.time <= counter && !d.rollover
  }

  /** The deadline set when the callback asks for another `period` ticks. */
  function Rearm(d: Deadline, counter: u32, period: u32): Deadline {
    var time := (d.time + period) % M;
    Deadline(time, if time < counter then true else d.rollover)
  }

  /** The deadline stands for the tick number `due`: that tick is ahead, by less than a full turn of
      the counter, and the rollover bit is set exactly if it lies in the counter's next turn. */
  ghost predicate Tracks(d: Deadline, now: nat, due: nat) {
    && now < due < now + M
    && d.time == due % M
    && (d.rollover <==> due / M > now / M)
  }

  lemma CounterNext(counter: u32, now: nat)
    requires counter == now % M
    ensures (counter + 1) % M == (now + 1) % M
  {
  }

  lemma ArmTracks(now: nat, nticks: u32)
    requires nticks < M - 1
    ensures Tracks(Arm(now % M, nticks), now, now + nticks + 1)
  {
  }

  /** One tick: the deadline expires if the tick is the due one, and otherwise still stands for it. */
  lemma TickTracks(d: Deadline, now: nat, due: nat)
    requires Tracks(d, now, due)
    ensures var next := Roll(d, (now + 1) % M);
            && (Expired(next, (now + 1) % M) <==> due == now + 1)
            && (due == now + 1 ==> next == Deadline((now + 1) % M, false))
            && (due != now + 1 ==> Tracks(next, now + 1, due))
  {
  }

  /** Visited a second time in a tick, a deadline ahead does not expire and stays. */
  lemma StillTracks(d: Deadline, now: nat, due: nat)
    requires Tracks(d, now, due)
    ensures Roll(d, now % M) == d && !Expired(d, now % M)
  {
  }

  /** Re-arming adds the period to the due tick, be that this tick or, when the alarm's own callback has
      started it again, a later one, if the sum is less than a turn of the counter away. */
  lemma RearmTracks(d: Deadline, now: nat, due: nat, period: u32)
    requires (due == now && d == Deadline(now % M, false)) || Tracks(d, now, due)
    requires 0 < period && due + period < now + M
    ensures Tracks(Rearm(d, now % M, period), now, due + period)
  {
  }

  /** The ticks, among the next `ticks` ones, at which an alarm's callback runs, when its successive
      return values are `replies` (and zero after the last of them). */
  function Fires(d: Deadline, now: nat, replies: seq<u32>, ticks: nat): seq<nat>
    decreases ticks
  {
    if ticks == 0 then []
    else
      var counter := (now + 1) % M;
      var next := Roll(d, counter);
      if !Expired(next, counter) then Fires(next, now + 1, replies, ticks - 1)
      else if replies == [] || replies[0] == 0 then [now + 1]
      else [now + 1] + Fires(Rearm(next, counter, replies[0]), now + 1, replies[1..], ticks - 1)
  }

  /** What the caller asked for, on unbounded tick numbers: the due ticks up to `last`. */
  function Promised(due: nat, replies: seq<u32>, last: nat): seq<nat>
    decreases |replies|
  {
    if due > last then []
    else if replies == [] || replies[0] == 0 then [due]
    else [due] + Promised(due + replies[0], replies[1..], last)
  }

  /** Whatever the callback returns, and over any number of turns of the counter, an alarm whose
      deadline stands for `due` runs its callback at exactly the promised ticks. */
  lemma {:induction false} FiresAsPromised(d: Deadline, now: nat, due: nat, replies: seq<u32>, ticks: nat)
    requires Tracks(d, now, due)
    ensures Fires(d, now, replies, ticks) == Promised(due, replies, now + ticks)
    decreases ticks
  {
    if ticks > 0 {
      TickTracks(d, now, due);
      var next := Roll(d, (now + 1) % M);
      if due != now + 1 {
        FiresAsPromised(next, now + 1, due, replies, ticks - 1);
      } else if replies != [] && replies[0] != 0 {
        RearmTracks(next, now + 1, due, replies[0]);
        FiresAsPromised(Rearm(next, (now + 1) % M, replies[0]), now + 1, due + replies[0], replies[1..], ticks - 1);
      }
    }
  }

  /** In particular an alarm started for any number of ticks but 2^32 - 1: first that many full ticks
      from now, then whenever its callback asked to be called again. */
  lemma StartedFiresAsPromised(now: nat, nticks: u32, replies: seq<u32>, ticks: nat)
    requires nticks < M - 1
    ensures Fires(Arm(now % M, nticks), now, replies, ticks) == Promised(now + nticks + 1, replies, now + ticks)
  {
    ArmTracks(now, nticks);
    FiresAsPromised(Arm(now % M, nticks), now, now + nticks + 1, replies, ticks);
  }

  /** The one request the 32-bit time cannot express: 2^32 ticks lie between now and the due tick, so
      the time equals the current one and no rollover is recorded.  If the counter wraps at the next
      tick, that tick leaves a deadline that stands for the due tick after all. */
  lemma LongestAtWrap(now: nat, nticks: u32, replies: seq<u32>, ticks: nat)
    requires nticks == M - 1 && now % M == M - 1 && ticks > 0
    ensures Fires(Arm(now % M, nticks), now, replies, ticks) == Promised(now + nticks + 1, replies, now + ticks)
  {
    var d := Deadline(now % M, false);
    assert Arm(now % M, nticks) == d && (now + 1) % M == 0;
    FiresAsPromised(d, now + 1, now + M, replies, ticks - 1);
  }

  /** Otherwise the next tick fires it. */
  lemma LongestFiresEarly(now: nat, nticks: u32, replies: seq<u32>, ticks: nat)
    requires nticks == M - 1 && now % M != M - 1 && ticks > 0
    ensures var fires := Fires(Arm(now % M, nticks), now, replies, ticks);
            fires != [] && fires[0] == now + 1
  {
    var d := Arm(now % M, nticks);
    assert d == Deadline(now % M, false) && (now + 1) % M == now % M + 1;
  }

  /** An alarm started for `nticks` ticks runs its callback at the promised ticks, whatever the callback
      returns, if and only if `nticks` is below 2^32 - 1 or the counter stands at 2^32 - 1. */
  lemma ExactIff(now: nat, nticks: u32, replies: seq<u32>, ticks: nat)
    requires ticks > 0
    ensures Fires(Arm(now % M, nticks), now, replies, ticks) == Promised(now + nticks + 1, replies, now + ticks)
            <==> nticks < M - 1 || now % M == M - 1
  {
    if nticks < M - 1 {
      StartedFiresAsPromised(now, nticks, replies, ticks);
    } else if now % M == M - 1 {
      LongestAtWrap(now, nticks, replies, ticks);
    } else {
      LongestFiresEarly(now, nticks, replies, ticks);
    }
  }
}
