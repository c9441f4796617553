/** What single ticks of the alarm service do: ticks whose callbacks do not stop the alarm visited next, and
    exactly what happens when one does. */
module AlarmWalks {
  import opened Common
  import opened AlarmTime
  import opened AlarmList
  import opened AlarmSpec

  // ---- Ticks ----

  /** The walk of the tick that follows a state. */
  ghost function Tick(s: State, script: nat -> Behaviour): Walk {
    After(Begin(s), script, |s.nodes|)
  }

  ghost predicate TidyTick(s: State, script: nat -> Behaviour) {
    TidyWalk(Begin(s), script, |s.nodes|)
  }

  ghost function TickVisits(s: State, script: nat -> Behaviour, a: Alarm): seq<nat> {
    Visits(Begin(s), script, |s.nodes|, a)
  }

  /** Does the alarm's callback run in the tick? */
  ghost predicate RunsIn(s: State, script: nat -> Behaviour, a: Alarm) {
    exists k :: k in TickVisits(s, script, a) && Runs(After(Begin(s), script, k))
  }

  /** The period its callback returns. */
  ghost function ReplyIn(s: State, script: nat -> Behaviour, a: Alarm): u32 {
    var v := TickVisits(s, script, a);
    if v == [] then 0 else script(v[0]).period
  }

  lemma BeginFacts(s: State)
    requires Ok(s)
    ensures WalkOk(Begin(s)) && OnList(Begin(s)) && ToVisit(Begin(s)) == s.nodes
  {
  }

  /** A tidy tick ends, after as many turns as alarms were linked at most; each of these is visited exactly
      once, unless a callback stops it first; and its callback runs exactly if its deadline has
      expired. */
  lemma TickOutcome(s: State, script: nat -> Behaviour, a: Alarm)
    requires Ok(s) && TidyTick(s, script)
    ensures Tick(s, script).cursor.End?
    ensures a in s.nodes ==>
              && a in s.deadlines
              && (if TickVisits(s, script, a) == [] then IsStopped(Begin(s), script, |s.nodes|, a) && !RunsIn(s, script, a)
                  else |TickVisits(s, script, a)| == 1 && (RunsIn(s, script, a) <==> Expires(Begin(s).s, a)))
  {
    var w, n := Begin(s), |s.nodes|;
    BeginFacts(s);
    WalkEnds(w, script);
    if a in s.nodes {
      VisitedOnce(w, script, n, a);
      var v := TickVisits(s, script, a);
      if v != [] {
        assert v[0] in v && forall k | k in v :: k == v[0];
        AfterOk(w, script, v[0]);
      }
    }
  }

  /** How many turns are allowed for makes no difference to a tidy tick that ends within them. */
  lemma TurnsSuffice(s: State, script: nat -> Behaviour, turns: nat)
    requires Ok(s) && TidyTick(s, script)
    ensures |s.nodes| <= turns ==> After(Begin(s), script, turns).cursor.End?
    ensures After(Begin(s), script, turns).cursor.End? ==> After(Begin(s), script, turns) == Tick(s, script)
  {
    BeginFacts(s);
    WalkEnds(Begin(s), script);
    if |s.nodes| <= turns {
      AfterEnd(Begin(s), script, |s.nodes|, turns);
    } else if After(Begin(s), script, turns).cursor.End? {
      AfterEnd(Begin(s), script, turns, |s.nodes|);
    }
  }

  /** A tick runs the callback of a linked alarm if and only if the tick is the due one, unless a callback
      that runs in this tick stops the alarm. */
  lemma TickRunsDue(s: State, script: nat -> Behaviour, a: Alarm, now: nat, due: nat)
    requires Ok(s) && TidyTick(s, script) && a in s.nodes && s.counter == now % M
    requires Tracks(s.deadlines[a], now, due) && !IsStopped(Begin(s), script, |s.nodes|, a)
    ensures RunsIn(s, script, a) <==> due == now + 1
  {
    var counter := Begin(s).s.counter;
    assert counter == (now + 1) % M by {
      CounterNext(s.counter, now);
    }
    assert Expires(Begin(s).s, a) <==> due == now + 1 by {
      TickTracks(s.deadlines[a], now, due);
    }
    TickOutcome(s, script, a);
  }

  lemma {:induction false} SparedNotStopped(w: Walk, script: nat -> Behaviour, n: nat, a: Alarm)
    requires Spares(w, script, n, a)
    ensures !IsStopped(w, script, n, a)
  {
    if n > 0 {
      SparedNotStopped(w, script, n - 1, a);
      assert StopAlarm(a) in script(n - 1).acts ==> Names(script(n - 1).acts, a) by {
        if StopAlarm(a) in script(n - 1).acts {
          assert StopAlarm(a).alarm == a;
        }
      }
    }
  }

  /** A linked alarm that no callback names is left settled: as it was if its deadline had not expired;
      gone if its callback returned zero; and otherwise linked, with the period added. */
  lemma TickSettles(s: State, script: nat -> Behaviour, a: Alarm)
    requires Ok(s) && TidyTick(s, script) && a in s.nodes && Spares(Begin(s), script, |s.nodes|, a)
    ensures a in s.deadlines && Settled(Tick(s, script).s, a, s.deadlines[a], ReplyIn(s, script, a))
    ensures RunsIn(s, script, a) <==> Expires(Begin(s).s, a)
  {
    BeginFacts(s);
    TickOutcome(s, script, a);
    SparedNotStopped(Begin(s), script, |s.nodes|, a);
    SettledOnce(Begin(s), script, |s.nodes|, a);
  }

  /** Settling an alarm at the tick after `now` leaves its deadline standing for the promised tick. */
  lemma SettledTracks(s: State, a: Alarm, d: Deadline, period: u32, now: nat, due: nat)
    requires Settled(s, a, d, period) && s.counter == (now + 1) % M && Tracks(d, now, due)
    ensures due != now + 1 ==> a in s.nodes && Tracks(s.deadlines[a], now + 1, due)
    ensures due == now + 1 ==> (a in s.nodes <==> period != 0)
    ensures due == now + 1 && period != 0 ==> Tracks(s.deadlines[a], now + 1, now + 1 + period)
  {
    TickTracks(d, now, due);
    if due == now + 1 && period != 0 {
      RearmTracks(Roll(d, s.counter), now + 1, due, period);
    }
  }

  /** A tick leaves the deadline of such an alarm standing for the promised tick. */
  lemma TickKeepsPromise(s: State, script: nat -> Behaviour, a: Alarm, now: nat, due: nat)
    requires Ok(s) && TidyTick(s, script) && a in s.nodes && Spares(Begin(s), script, |s.nodes|, a)
    requires s.counter == now % M && Tracks(s.deadlines[a], now, due)
    ensures var s', reply := Tick(s, script).s, ReplyIn(s, script, a);
            && a in s'.deadlines
            && (due != now + 1 ==> a in s'.nodes && Tracks(s'.deadlines[a], now + 1, due))
            && (due == now + 1 ==> (a in s'.nodes <==> reply != 0))
            && (due == now + 1 && reply != 0 ==> Tracks(s'.deadlines[a], now + 1, now + 1 + reply))
  {
    var s', reply := Tick(s, script).s, ReplyIn(s, script, a);
    assert Settled(s', a, s.deadlines[a], reply) by {
      TickSettles(s, script, a);
    }
    assert s'.counter == (now + 1) % M by {
      CounterNext(s.counter, now);
      BeginFacts(s);
      AfterOk(Begin(s), script, |s.nodes|);
    }
    SettledTracks(s', a, s.deadlines[a], reply, now, due);
  }

  ghost predicate Passive(script: nat -> Behaviour) {
    forall k: nat :: script(k).acts == []
  }

  lemma {:induction false} PassiveWalk(w: Walk, script: nat -> Behaviour, n: nat, a: Alarm)
    requires WalkOk(w) && Passive(script)
    ensures TidyWalk(w, script, n) && Spares(w, script, n, a) && !IsStopped(w, script, n, a)
    ensures forall y | y in After(w, script, n).s.nodes :: y in w.s.nodes
  {
    if n > 0 {
      PassiveWalk(w, script, n - 1, a);
      AfterOk(w, script, n - 1);
    }
  }

  /** When callbacks act on nothing, a tick runs exactly the callbacks of the alarms whose deadlines have
      expired, once each; exactly those that returned zero are gone, and no others have come. */
  lemma QuietTick(s: State, script: nat -> Behaviour, a: Alarm)
    requires Ok(s) && Passive(script)
    ensures Tick(s, script).cursor.End?
    ensures a in s.nodes ==>
              && a in s.deadlines && |TickVisits(s, script, a)| == 1
              && (RunsIn(s, script, a) <==> Expires(Begin(s).s, a))
              && (a in Tick(s, script).s.nodes <==> !RunsIn(s, script, a) || ReplyIn(s, script, a) != 0)
    ensures a !in s.nodes ==> a !in Tick(s, script).s.nodes
  {
    BeginFacts(s);
    PassiveWalk(Begin(s), script, |s.nodes|, a);
    TickOutcome(s, script, a);
    AfterOk(Begin(s), script, |s.nodes|);
    if a in s.nodes {
      TickSettles(s, script, a);
    }
  }

  // ---- Walks that leave the list ----

  /** Is an alarm linked after these acts, if it was before as `linked` says?  The last act that is about it
      decides; a start needs a clock. */
  ghost predicate LinkedAfter(acts: seq<Act>, rate: u32, a: Alarm, linked: bool) {
    var n := |acts| - 1;
    if n < 0 then linked
    else if acts[n] == StopAlarm(a) then false
    else (acts[n].StartAlarm? && acts[n].alarm == a && rate != 0) || LinkedAfter(acts[..n], rate, a, linked)
  }

  lemma {:induction false} LinkedIff(s: State, acts: seq<Act>, a: Alarm)
    requires Ok(s) && a in s.deadlines
    ensures a in Effects(s, acts).nodes <==> LinkedAfter(acts, s.rate, a, a in s.nodes)
  {
    var n := |acts| - 1;
    if n >= 0 {
      LinkedIff(s, acts[..n], a);
      EffectsOk(s, acts[..n]);
    }
  }

  /** The alarm at the cursor is not linked, but due; its callback starts it again and asks for a period. */
  ghost predicate Recovers(w: Walk, b: Behaviour) {
    Runs(w) && b.period != 0 && LinkedAfter(b.acts, w.s.rate, w.cursor.alarm, false)
  }

  /** A walk that stands at an alarm that is not linked comes to it again.  That alarm is linked then if and
      only if its own callback, which runs all the same if it is due, has started it again. */
  lemma RecoversIff(w: Walk, b: Behaviour)
    requires WalkOk(w) && !OnList(w)
    ensures Turn(w, b).cursor == w.cursor && (OnList(Turn(w, b)) <==> Recovers(w, b))
  {
    var a := w.cursor.alarm;
    NextUnlinked(w.s.nodes, a);
    EffectsOk(Rolled(w.s, a), b.acts);
    LinkedIff(Rolled(w.s, a), b.acts, a);
  }

  ghost predicate RecoversAt(w: Walk, script: nat -> Behaviour, k: nat) {
    Recovers(After(w, script, k), script(k))
  }

  ghost predicate OnListAt(w: Walk, script: nat -> Behaviour, n: nat) {
    OnList(After(w, script, n))
  }

  lemma {:induction false} StaysOff(w: Walk, script: nat -> Behaviour, n: nat)
    requires WalkOk(w) && !OnList(w)
    requires forall k: nat :: !RecoversAt(w, script, k)
    ensures After(w, script, n).cursor == w.cursor && !OnList(After(w, script, n))
  {
    if n > 0 {
      StaysOff(w, script, n - 1);
      AfterOk(w, script, n - 1);
      assert !RecoversAt(w, script, n - 1);
      RecoversIff(After(w, script, n - 1), script(n - 1));
    }
  }

  /** A walk that has left the list comes back to it if and only if, in some turn, the alarm at which it
      stands recovers. */
  lemma ReturnsIff(w: Walk, script: nat -> Behaviour)
    requires WalkOk(w) && !OnList(w)
    ensures (exists n: nat :: OnListAt(w, script, n)) <==> exists k: nat :: RecoversAt(w, script, k)
  {
    if k: nat :| RecoversAt(w, script, k) {
      AfterOk(w, script, k);
      if !OnListAt(w, script, k) {
        RecoversIff(After(w, script, k), script(k));
        assert OnListAt(w, script, k + 1);
      }
    } else {
      forall n: nat
        ensures !OnListAt(w, script, n)
      {
        StaysOff(w, script, n);
      }
    }
  }

  ghost predicate Ends(w: Walk, script: nat -> Behaviour) {
    exists n: nat :: After(w, script, n).cursor.End?
  }

  /** From here on no callback stops the alarm visited next, and if the walk is off the list, the alarm at
      which it stands does not recover. */
  ghost predicate Steady(w: Walk, script: nat -> Behaviour) {
    if OnList(w) then TidyWalk(w, script, |ToVisit(w)|)
    else forall k: nat :: !RecoversAt(w, script, k)
  }

  /** A steady walk ends if and only if it has ended already or stands at a linked alarm. */
  lemma EndsIff(w: Walk, script: nat -> Behaviour)
    requires WalkOk(w) && Steady(w, script)
    ensures Ends(w, script) <==> OnList(w)
  {
    if OnList(w) {
      WalkEnds(w, script);
    } else {
      forall n: nat
        ensures !After(w, script, n).cursor.End?
      {
        StaysOff(w, script, n);
      }
    }
  }

  lemma {:induction false} AfterFirst(w: Walk, script: nat -> Behaviour, later: nat -> Behaviour, n: nat)
    requires forall k: nat :: later(k) == script(k + 1)
    ensures After(w, script, n + 1) == After(Turn(w, script(0)), later, n)
  {
    if n == 0 {
      assert After(w, script, 0) == w;
    } else {
      AfterFirst(w, script, later, n - 1);
    }
  }

  lemma EndsLater(w: Walk, script: nat -> Behaviour, later: nat -> Behaviour)
    requires w.cursor.At? && forall k: nat :: later(k) == script(k + 1)
    ensures Ends(w, script) <==> Ends(Turn(w, script(0)), later)
  {
    if Ends(Turn(w, script(0)), later) {
      var n: nat :| After(Turn(w, script(0)), later, n).cursor.End?;
      AfterFirst(w, script, later, n);
    }
    if Ends(w, script) {
      var n: nat :| After(w, script, n).cursor.End?;
      assert n > 0;
      AfterFirst(w, script, later, n - 1);
    }
  }

  /** When a callback runs and the walk is steady from then on, the walk ends if and only if the last of its
      acts about the alarm visited next, if any, is not to stop it. */
  lemma StopNextIff(w: Walk, script: nat -> Behaviour, later: nat -> Behaviour, x: Alarm)
    requires WalkOk(w) && OnList(w) && Runs(w) && Next(w.s.nodes, w.cursor.alarm) == At(x)
    requires (forall k: nat :: later(k) == script(k + 1)) && Steady(Turn(w, script(0)), later)
    ensures Ends(w, script) <==> LinkedAfter(script(0).acts, w.s.rate, x, true)
  {
    var a, b, w' := w.cursor.alarm, script(0), Turn(w, script(0));
    NextRest(w.s.nodes, a);
    TurnOk(w, b);
    EffectsOk(Rolled(w.s, a), b.acts);
    LinkedIff(Rolled(w.s, a), b.acts, x);
    assert x in w'.s.nodes <==> LinkedAfter(b.acts, w.s.rate, x, true);
    EndsIff(w', later);
    EndsLater(w, script, later);
  }

  lemma PassiveSteady(w: Walk, script: nat -> Behaviour)
    requires WalkOk(w) && Passive(script)
    ensures Steady(w, script)
  {
    if OnList(w) && w.cursor.At? {
      PassiveWalk(w, script, |ToVisit(w)|, w.cursor.alarm);
    }
  }

  /** Two linked alarms, of which the first is due at the next tick. */
  ghost function Pair(a: Alarm, b: Alarm): State {
    State([a, b], map[a := Deadline(1, false), b := Deadline(9, false)], 0, 1000)
  }

  /** Only the first callback acts. */
  ghost function Once(acts: seq<Act>): nat -> Behaviour {
    k => Behaviour(if k == 0 then acts else [], 0)
  }

  /** If the first callback stops the second alarm, the tick never ends; if it starts it again, it does. */
  lemma StopNextFails(a: Alarm, b: Alarm)
    requires a != b
    ensures !Ends(Begin(Pair(a, b)), Once([StopAlarm(b)]))
    ensures Ends(Begin(Pair(a, b)), Once([StopAlarm(b), StartAlarm(b, 5)]))
  {
    var w, stop, start := Begin(Pair(a, b)), [StopAlarm(b)], [StopAlarm(b), StartAlarm(b, 5)];
    var quiet: nat -> Behaviour := k => Behaviour([], 0);
    BeginFacts(Pair(a, b));
    assert Runs(w) && Next(w.s.nodes, a) == At(b);
    TurnOk(w, Once(stop)(0));
    TurnOk(w, Once(start)(0));
    PassiveSteady(Turn(w, Once(stop)(0)), quiet);
    PassiveSteady(Turn(w, Once(start)(0)), quiet);
    StopNextIff(w, Once(stop), quiet, b);
    StopNextIff(w, Once(start), quiet, b);
  }
}
