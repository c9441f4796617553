/** What the alarm service promises over whole runs, whatever callbacks do, as long as every tick ends. */
module AlarmRuns {
  import opened Common
  import opened AlarmTime
  import opened AlarmList
  import opened AlarmSpec
  import opened AlarmWalks

  // ---- Alarms ahead of a walk ----

  /** The alarm is still to be visited, if not at once then when the walk is back on the list. */
  ghost predicate Ahead(nodes: seq<Alarm>, c: Cursor, y: Alarm) {
    c.At? && (c.alarm in nodes ==> y in Rest(nodes, c))
  }

  /** A linked alarm that is ahead stays ahead unless it is stopped: stopping the alarm at the cursor takes
      the walk off the list, and starting it again puts it in front of all others. */
  lemma EffectAhead(s: State, act: Act, c: Cursor, y: Alarm)
    requires Ok(s) && y in s.nodes && Ahead(s.nodes, c, y) && act != StopAlarm(y)
    ensures y in Effect(s, act).nodes && Ahead(Effect(s, act).nodes, c, y)
    ensures y in Effect(s, act).deadlines && Effect(s, act).deadlines[y] == s.deadlines[y]
  {
    match act {
      case StartAlarm(z, _) =>
        assert ([z] + s.nodes)[1..] == s.nodes;
      case StopAlarm(z) =>
        if z != c.alarm {
          RestWithout(s.nodes, c, z);
        }
    }
  }

  lemma {:induction false} EffectsAhead(s: State, acts: seq<Act>, c: Cursor, y: Alarm)
    requires Ok(s) && y in s.nodes && Ahead(s.nodes, c, y) && StopAlarm(y) !in acts
    ensures y in Effects(s, acts).nodes && Ahead(Effects(s, acts).nodes, c, y)
    ensures y in Effects(s, acts).deadlines && Effects(s, acts).deadlines[y] == s.deadlines[y]
  {
    var n := |acts| - 1;
    if n >= 0 {
      EffectsAhead(s, acts[..n], c, y);
      EffectsOk(s, acts[..n]);
      EffectAhead(Effects(s, acts[..n]), acts[n], c, y);
    }
  }

  lemma NextAhead(nodes: seq<Alarm>, a: Alarm, y: Alarm)
    requires Distinct(nodes) && Ahead(nodes, At(a), y) && y != a
    ensures Ahead(nodes, Next(nodes, a), y)
  {
    if a in nodes {
      NextRest(nodes, a);
    } else {
      NextUnlinked(nodes, a);
    }
  }

  lemma StopAhead(nodes: seq<Alarm>, c: Cursor, y: Alarm, a: Alarm)
    requires Ahead(nodes, c, y) && y != a
    ensures Ahead(Without(nodes, a), c, y)
  {
    if c.alarm != a {
      RestWithout(nodes, c, a);
    }
  }

  lemma TurnAhead(w: Walk, b: Behaviour, y: Alarm)
    requires WalkOk(w) && w.cursor.At? && w.cursor.alarm != y && (Runs(w) ==> StopAlarm(y) !in b.acts)
    requires y in w.s.nodes && Ahead(w.s.nodes, w.cursor, y)
    ensures var w' := Turn(w, b);
            && y in w'.s.nodes && Ahead(w'.s.nodes, w'.cursor, y)
            && y in w'.s.deadlines && w'.s.deadlines[y] == w.s.deadlines[y]
  {
    var a := w.cursor.alarm;
    var r, next := Rolled(w.s, a), Next(w.s.nodes, a);
    NextAhead(w.s.nodes, a, y);
    if Runs(w) {
      EffectsAhead(r, b.acts, next, y);
      EffectsOk(r, b.acts);
      StopAhead(Effects(r, b.acts).nodes, next, y, a);
    }
  }

  // ---- One alarm in one tick ----

  /** Those of the given turns in which a callback runs. */
  ghost function Running(w: Walk, script: nat -> Behaviour, turns: seq<nat>): seq<nat> {
    var n := |turns| - 1;
    if n < 0 then []
    else Running(w, script, turns[..n]) + (if Runs(After(w, script, turns[n])) then [turns[n]] else [])
  }

  /** The turns among the first n in which the alarm's callback runs. */
  ghost function RunTurns(w: Walk, script: nat -> Behaviour, n: nat, a: Alarm): seq<nat> {
    Running(w, script, Visits(w, script, n, a))
  }

  lemma RunTurnsNext(w: Walk, script: nat -> Behaviour, n: nat, a: Alarm)
    ensures var u := After(w, script, n);
            RunTurns(w, script, n + 1, a) == RunTurns(w, script, n, a) + (if u.cursor == At(a) && Runs(u) then [n] else [])
  {
    var v, u := Visits(w, script, n, a), After(w, script, n);
    if u.cursor == At(a) {
      assert Visits(w, script, n + 1, a) == v + [n] && (v + [n])[..|v|] == v;
    } else {
      assert Visits(w, script, n + 1, a) == v;
    }
  }

  /** In the tick after `now` the alarm, which was due at `due`, has been visited.  If that was the tick, its
      callback has run and returned `reply`. */
  ghost predicate Landed(u: Walk, a: Alarm, now: nat, due: nat, reply: u32) {
    && a in u.s.deadlines
    && if due == now + 1 && reply == 0 then a !in u.s.nodes && u.cursor != At(a)
       else a in u.s.nodes && Tracks(u.s.deadlines[a], now + 1, NextDue(now, due, reply))
  }

  /** When the alarm is due after that tick. */
  ghost function NextDue(now: nat, due: nat, reply: u32): nat {
    if due == now + 1 then due + reply else due
  }

  lemma TurnLands(w: Walk, b: Behaviour, a: Alarm, now: nat, due: nat)
    requires WalkOk(w) && w.s.counter == (now + 1) % M && w.cursor == At(a) && a in w.s.nodes
    requires Tracks(w.s.deadlines[a], now, due) && (Runs(w) ==> !Names(b.acts, a))
    ensures Landed(Turn(w, b), a, now, due, b.period) && (Runs(w) <==> due == now + 1)
  {
    TurnSettles(w, b);
    TurnOk(w, b);
    NextRest(w.s.nodes, a);
    SettledTracks(Turn(w, b).s, a, w.s.deadlines[a], b.period, now, due);
    TickTracks(w.s.deadlines[a], now, due);
  }

  /** An alarm that is not linked, and not at the cursor, stays so unless a callback names it. */
  lemma TurnGone(w: Walk, b: Behaviour, a: Alarm)
    requires WalkOk(w) && a in w.s.deadlines && a !in w.s.nodes && w.cursor != At(a)
    requires Runs(w) ==> !Names(b.acts, a)
    ensures var w' := Turn(w, b); a in w'.s.deadlines && a !in w'.s.nodes && w'.cursor != At(a)
  {
    TurnSpares(w, b, a);
    if w.cursor.At? {
      NextIn(w.s.nodes, w.cursor.alarm);
    }
  }

  /** Visited again, an alarm that has landed does not run, and stays as it is. */
  lemma TurnStays(w: Walk, b: Behaviour, a: Alarm, now: nat, due: nat, reply: u32)
    requires WalkOk(w) && w.s.counter == (now + 1) % M && Landed(w, a, now, due, reply)
    requires Runs(w) ==> !Names(b.acts, a)
    ensures Landed(Turn(w, b), a, now, due, reply) && !(w.cursor == At(a) && Runs(w))
  {
    if a !in w.s.nodes {
      TurnGone(w, b, a);
    } else if w.cursor == At(a) {
      StillTracks(w.s.deadlines[a], now + 1, NextDue(now, due, reply));
    } else {
      TurnSpares(w, b, a);
    }
  }

  ghost function FirstReply(script: nat -> Behaviour, runs: seq<nat>): u32 {
    if runs == [] then 0 else script(runs[0]).period
  }

  /** How an alarm with deadline d, due at `due`, stands in a walk after the given runs of its callback: it
      is still ahead, or it has landed. */
  ghost predicate InTime(u: Walk, a: Alarm, d: Deadline, now: nat, due: nat, script: nat -> Behaviour, runs: seq<nat>) {
    || (&& a in u.s.nodes && Ahead(u.s.nodes, u.cursor, a) && runs == []
        && a in u.s.deadlines && u.s.deadlines[a] == d)
    || (Landed(u, a, now, due, FirstReply(script, runs)) && |runs| == if due == now + 1 then 1 else 0)
  }

  lemma InTimeNext(u: Walk, a: Alarm, d: Deadline, now: nat, due: nat, script: nat -> Behaviour, runs: seq<nat>, k: nat)
    requires WalkOk(u) && u.s.counter == (now + 1) % M && Tracks(d, now, due)
    requires InTime(u, a, d, now, due, script, runs) && (Runs(u) ==> !Names(script(k).acts, a))
    ensures InTime(Turn(u, script(k)), a, d, now, due, script, runs + (if u.cursor == At(a) && Runs(u) then [k] else []))
  {
    var b := script(k);
    if Landed(u, a, now, due, FirstReply(script, runs)) && |runs| == (if due == now + 1 then 1 else 0) {
      TurnStays(u, b, a, now, due, FirstReply(script, runs));
      assert runs + [] == runs;
    } else if u.cursor == At(a) {
      TurnLands(u, b, a, now, due);
    } else {
      assert StopAlarm(a) in b.acts ==> Names(b.acts, a) by {
        assert StopAlarm(a).alarm == a;
      }
      TurnAhead(u, b, a);
    }
  }

  /** An alarm that is ahead and spared by callbacks stays ahead until it is visited; then its callback runs
      if this is the due tick, and does not run again in this tick. */
  lemma {:induction false} LandsOnce(w: Walk, script: nat -> Behaviour, n: nat, a: Alarm, now: nat, due: nat)
    requires WalkOk(w) && w.s.counter == (now + 1) % M && a in w.s.nodes && Ahead(w.s.nodes, w.cursor, a)
    requires Tracks(w.s.deadlines[a], now, due) && Spares(w, script, n, a)
    ensures InTime(After(w, script, n), a, w.s.deadlines[a], now, due, script, RunTurns(w, script, n, a))
  {
    if n > 0 {
      LandsOnce(w, script, n - 1, a, now, due);
      AfterOk(w, script, n - 1);
      RunTurnsNext(w, script, n - 1, a);
      InTimeNext(After(w, script, n - 1), a, w.s.deadlines[a], now, due, script, RunTurns(w, script, n - 1, a), n - 1);
    }
  }

  /** In a tick that ends, however callbacks stop and start other alarms, the callback of a linked alarm that
      they spare runs exactly once if the tick is the due one and not at all otherwise.  The alarm is
      then gone if it returned zero, and linked and due as promised if not. */
  lemma TickLands(s: State, script: nat -> Behaviour, turns: nat, a: Alarm, now: nat, due: nat)
    requires Ok(s) && s.counter == now % M && a in s.nodes && Tracks(s.deadlines[a], now, due)
    requires After(Begin(s), script, turns).cursor.End? && Spares(Begin(s), script, turns, a)
    ensures var u, runs := After(Begin(s), script, turns), RunTurns(Begin(s), script, turns, a);
            Landed(u, a, now, due, FirstReply(script, runs)) && |runs| == if due == now + 1 then 1 else 0
  {
    BeginFacts(s);
    assert Begin(s).s.counter == (now + 1) % M by {
      CounterNext(s.counter, now);
    }
    LandsOnce(Begin(s), script, turns, a, now, due);
  }

  lemma {:induction false} GoneStays(w: Walk, script: nat -> Behaviour, n: nat, a: Alarm)
    requires WalkOk(w) && a in w.s.deadlines && a !in w.s.nodes && w.cursor != At(a) && Spares(w, script, n, a)
    ensures RunTurns(w, script, n, a) == []
    ensures var u := After(w, script, n); a in u.s.deadlines && a !in u.s.nodes && u.cursor != At(a)
  {
    if n > 0 {
      GoneStays(w, script, n - 1, a);
      AfterOk(w, script, n - 1);
      RunTurnsNext(w, script, n - 1, a);
      TurnGone(After(w, script, n - 1), script(n - 1), a);
    }
  }

  // ---- Runs ----

  /** What the program and the hardware do, one after the other: alarms are started and stopped outside
      callbacks, and the clock ticks.  A tick is given as many turns as its walk needs, or more. */
  datatype Event =
    | Started(alarm: Alarm, nticks: u32)
    | Stopped(alarm: Alarm)
    | Ticked(script: nat -> Behaviour, turns: nat)

  ghost function Apply(s: State, e: Event): State {
    match e
    case Started(a, nticks) => Start(s, a, nticks)
    case Stopped(a) => Stop(s, a)
    case Ticked(script, turns) => After(Begin(s), script, turns).s
  }

  /** The event is over: if it is a tick, its walk has ended. */
  ghost predicate Over(s: State, e: Event) {
    e.Ticked? ==> After(Begin(s), e.script, e.turns).cursor.End?
  }

  ghost function AfterAll(s: State, events: seq<Event>): State
    decreases |events|
  {
    if events == [] then s else AfterAll(Apply(s, events[0]), events[1..])
  }

  /** Every tick of the run ends. */
  ghost predicate Completes(s: State, events: seq<Event>)
    decreases |events|
  {
    events != [] ==> Over(s, events[0]) && Completes(Apply(s, events[0]), events[1..])
  }

  ghost function Ticks(events: seq<Event>): nat {
    if events == [] then 0 else (if events[0].Ticked? then 1 else 0) + Ticks(events[1..])
  }

  ghost function Periods(script: nat -> Behaviour, runs: seq<nat>): seq<u32> {
    if runs == [] then [] else [script(runs[0]).period] + Periods(script, runs[1..])
  }

  /** Of every tick of a run, the periods that the alarm's callback returns in it, one for each time it
      runs. */
  ghost function Trace(s: State, events: seq<Event>, a: Alarm): seq<seq<u32>>
    decreases |events|
  {
    if events == [] then []
    else
      var e := events[0];
      (if e.Ticked? then [Periods(e.script, RunTurns(Begin(s), e.script, e.turns, a))] else [])
      + Trace(Apply(s, e), events[1..], a)
  }

  /** The numbers of the ticks in which the callback runs, one for each time it does. */
  ghost function RanAt(trace: seq<seq<u32>>, now: nat): seq<nat> {
    if trace == [] then [] else seq(|trace[0]|, i => now + 1) + RanAt(trace[1..], now + 1)
  }

  /** The periods it returns. */
  ghost function RepliesOf(trace: seq<seq<u32>>): seq<u32> {
    if trace == [] then [] else trace[0] + RepliesOf(trace[1..])
  }

  lemma {:induction false} TraceTicks(s: State, events: seq<Event>, a: Alarm)
    ensures |Trace(s, events, a)| == Ticks(events)
    decreases |events|
  {
    if events != [] {
      TraceTicks(Apply(s, events[0]), events[1..], a);
    }
  }

  lemma TraceStep(s: State, events: seq<Event>, a: Alarm, runs: seq<nat>)
    requires events != [] && events[0].Ticked? && |runs| <= 1
    requires runs == RunTurns(Begin(s), events[0].script, events[0].turns, a)
    ensures var trace := Trace(s, events, a);
            && trace != [] && trace[1..] == Trace(Apply(s, events[0]), events[1..], a)
            && trace[0] == if runs == [] then [] else [FirstReply(events[0].script, runs)]
  {
    if runs != [] {
      assert Periods(events[0].script, runs[1..]) == [];
    }
  }

  lemma ApplyOk(s: State, e: Event)
    requires Ok(s)
    ensures Ok(Apply(s, e)) && Apply(s, e).deadlines.Keys == s.deadlines.Keys && Apply(s, e).rate == s.rate
    ensures Apply(s, e).counter == if e.Ticked? then (s.counter + 1) % M else s.counter
  {
    match e {
      case Started(a, nticks) => EffectRest(s, StartAlarm(a, nticks), End);
      case Stopped(a) => EffectRest(s, StopAlarm(a), End);
      case Ticked(script, turns) =>
        BeginFacts(s);
        AfterOk(Begin(s), script, turns);
    }
  }

  /** The event is not about the alarm: it is started and stopped neither by the program nor by a callback
      that runs.  If the event is a tick, it ends. */
  ghost predicate LeavesAlone(s: State, e: Event, a: Alarm) {
    && Over(s, e)
    && match e
       case Started(x, _) => x != a
       case Stopped(x) => x != a
       case Ticked(script, turns) => Spares(Begin(s), script, turns, a)
  }

  ghost predicate AllLeaveAlone(s: State, events: seq<Event>, a: Alarm)
    decreases |events|
  {
    events == [] || (LeavesAlone(s, events[0], a) && AllLeaveAlone(Apply(s, events[0]), events[1..], a))
  }

  datatype Due = Never | DueAt(tick: nat)

  /** What the caller is promised of the ticks after `now`: when the alarm is due its callback runs, once, and
      then it is due the returned period later, or never again; and it does not run otherwise. */
  ghost predicate KeepsPromise(trace: seq<seq<u32>>, now: nat, due: Due) {
    trace == [] ||
    if due != DueAt(now + 1) then trace[0] == [] && KeepsPromise(trace[1..], now + 1, due)
    else
      |trace[0]| == 1 &&
      KeepsPromise(trace[1..], now + 1, if trace[0][0] == 0 then Never else DueAt(due.tick + trace[0][0]))
  }

  lemma {:induction false} NeverRuns(trace: seq<seq<u32>>, now: nat)
    requires KeepsPromise(trace, now, Never)
    ensures RanAt(trace, now) == [] && RepliesOf(trace) == []
  {
    if trace != [] {
      NeverRuns(trace[1..], now + 1);
    }
  }

  lemma PromisedStep(due: nat, reply: u32, later: seq<u32>, last: nat)
    requires due <= last
    ensures Promised(due, [reply] + later, last) == [due] + (if reply == 0 then [] else Promised(due + reply, later, last))
  {
    assert ([reply] + later)[1..] == later;
  }

  lemma RanQuiet(trace: seq<seq<u32>>, now: nat)
    requires trace != [] && trace[0] == []
    ensures RanAt(trace, now) == RanAt(trace[1..], now + 1) && RepliesOf(trace) == RepliesOf(trace[1..])
  {
  }

  lemma RanOnce(trace: seq<seq<u32>>, now: nat, reply: u32)
    requires trace != [] && trace[0] == [reply]
    ensures RanAt(trace, now) == [now + 1] + RanAt(trace[1..], now + 1)
    ensures RepliesOf(trace) == [reply] + RepliesOf(trace[1..])
  {
    assert seq(1, i => now + 1) == [now + 1];
  }

  /** A kept promise, as the list of promised ticks. */
  lemma {:induction false} PromisedTicks(trace: seq<seq<u32>>, now: nat, due: nat)
    requires KeepsPromise(trace, now, DueAt(due)) && now < due
    ensures RanAt(trace, now) == Promised(due, RepliesOf(trace), now + |trace|)
  {
    if trace != [] {
      var rest, last := trace[1..], now + |trace|;
      if due != now + 1 {
        RanQuiet(trace, now);
        PromisedTicks(rest, now + 1, due);
      } else {
        var reply := trace[0][0];
        assert trace[0] == [reply];
        RanOnce(trace, now, reply);
        PromisedStep(due, reply, RepliesOf(rest), last);
        if reply == 0 {
          NeverRuns(rest, now + 1);
        } else {
          PromisedTicks(rest, now + 1, due + reply);
        }
      }
    }
  }

  /** An alarm that is not linked does not run. */
  lemma {:induction false} IdleRun(s: State, events: seq<Event>, now: nat, a: Alarm)
    requires Ok(s) && a in s.deadlines && a !in s.nodes && AllLeaveAlone(s, events, a)
    ensures KeepsPromise(Trace(s, events, a), now, Never)
    decreases |events|
  {
    if events != [] {
      var e := events[0];
      ApplyOk(s, e);
      if e.Ticked? {
        BeginFacts(s);
        GoneStays(Begin(s), e.script, e.turns, a);
        TraceStep(s, events, a, []);
      } else {
        assert Trace(s, events, a) == Trace(Apply(s, e), events[1..], a);
      }
      IdleRun(Apply(s, e), events[1..], if e.Ticked? then now + 1 else now, a);
    }
  }

  /** A tick of a run, for such an alarm: what it adds to the trace, and how it leaves the alarm. */
  lemma RunTick(s: State, events: seq<Event>, now: nat, a: Alarm, due: nat) returns (reply: u32)
    requires events != [] && events[0].Ticked? && LeavesAlone(s, events[0], a)
    requires Ok(s) && s.counter == now % M && a in s.nodes && Tracks(s.deadlines[a], now, due)
    ensures var e, trace := events[0], Trace(s, events, a);
            && trace != [] && trace[1..] == Trace(Apply(s, e), events[1..], a)
            && trace[0] == (if due == now + 1 then [reply] else [])
            && Landed(After(Begin(s), e.script, e.turns), a, now, due, reply)
  {
    var e := events[0];
    var runs := RunTurns(Begin(s), e.script, e.turns, a);
    reply := FirstReply(e.script, runs);
    TickLands(s, e.script, e.turns, a, now, due);
    TraceStep(s, events, a, runs);
  }

  lemma PromiseStep(trace: seq<seq<u32>>, now: nat, due: nat, reply: u32, next: Due)
    requires trace != [] && trace[0] == if due == now + 1 then [reply] else []
    requires next == if due != now + 1 then DueAt(due) else if reply == 0 then Never else DueAt(due + reply)
    requires KeepsPromise(trace[1..], now + 1, next)
    ensures KeepsPromise(trace, now, DueAt(due))
  {
  }

  /** Over any run whose ticks end, an alarm whose deadline stands for `due` keeps its promise. */
  lemma {:induction false} RunKeepsPromise(s: State, events: seq<Event>, now: nat, a: Alarm, due: nat)
    requires Ok(s) && s.counter == now % M && a in s.nodes && AllLeaveAlone(s, events, a)
    requires Tracks(s.deadlines[a], now, due)
    ensures KeepsPromise(Trace(s, events, a), now, DueAt(due))
    decreases |events|
  {
    if events != [] {
      var s', rest, trace := Apply(s, events[0]), events[1..], Trace(s, events, a);
      if !events[0].Ticked? {
        ApplyOk(s, events[0]);
        RunKeepsPromise(s', rest, now, a, due);
        assert trace == Trace(s', rest, a);
      } else {
        var reply := RunTick(s, events, now, a, due);
        var next := if due != now + 1 then DueAt(due) else if reply == 0 then Never else DueAt(due + reply);
        ApplyOk(s, events[0]);
        CounterNext(s.counter, now);
        if next.Never? {
          IdleRun(s', rest, now + 1, a);
        } else {
          RunKeepsPromise(s', rest, now + 1, a, next.tick);
        }
        PromiseStep(trace, now, due, reply, next);
      }
    }
  }

  /** Over any run whose ticks end, an alarm whose deadline stands for `due` runs its callback at exactly the
      promised ticks, once each, whatever becomes of the others. */
  lemma RunFiresAsPromised(s: State, events: seq<Event>, now: nat, a: Alarm, due: nat)
    requires Ok(s) && s.counter == now % M && a in s.nodes && AllLeaveAlone(s, events, a)
    requires Tracks(s.deadlines[a], now, due)
    ensures var trace := Trace(s, events, a);
            RanAt(trace, now) == Promised(due, RepliesOf(trace), now + Ticks(events))
  {
    var trace := Trace(s, events, a);
    TraceTicks(s, events, a);
    assert RanAt(trace, now) == Promised(due, RepliesOf(trace), now + |trace|) by {
      RunKeepsPromise(s, events, now, a, due);
      PromisedTicks(trace, now, due);
    }
  }

  /** An alarm that the program stops does not run afterwards. */
  lemma StoppedNeverRuns(s: State, events: seq<Event>, now: nat, a: Alarm)
    requires Ok(s) && a in s.deadlines && AllLeaveAlone(Stop(s, a), events, a)
    ensures RanAt(Trace(s, [Stopped(a)] + events, a), now) == []
  {
    ApplyOk(s, Stopped(a));
    IdleRun(Stop(s, a), events, now, a);
    NeverRuns(Trace(Stop(s, a), events, a), now);
    var all := [Stopped(a)] + events;
    assert all[0] == Stopped(a) && all[1..] == events;
    assert Trace(s, all, a) == Trace(Stop(s, a), events, a);
  }

  // ---- Tidy runs ----

  /** No callback of the run stops the alarm that its walk visits next, and ticks get a turn for each alarm. */
  ghost predicate TidyRun(s: State, events: seq<Event>)
    decreases |events|
  {
    events != [] ==>
      && (events[0].Ticked? ==> TidyTick(s, events[0].script) && |s.nodes| <= events[0].turns)
      && TidyRun(Apply(s, events[0]), events[1..])
  }

  /** Every tick of such a run ends. */
  lemma {:induction false} TidyCompletes(s: State, events: seq<Event>)
    requires Ok(s) && TidyRun(s, events)
    ensures Completes(s, events)
    decreases |events|
  {
    if events != [] {
      var e := events[0];
      ApplyOk(s, e);
      if e.Ticked? {
        TurnsSuffice(s, e.script, e.turns);
      }
      TidyCompletes(Apply(s, e), events[1..]);
    }
  }

  /** Turns after the end visit nothing. */
  lemma {:induction false} VisitsEnd(w: Walk, script: nat -> Behaviour, m: nat, n: nat, a: Alarm)
    requires After(w, script, m).cursor.End? && m <= n
    ensures Visits(w, script, n, a) == Visits(w, script, m, a)
  {
    if m < n {
      VisitsEnd(w, script, m, n - 1, a);
      assert After(w, script, n - 1).cursor.End? by {
        AfterEnd(w, script, m, n - 1);
      }
    }
  }

  lemma {:induction false} SparesEnd(w: Walk, script: nat -> Behaviour, m: nat, n: nat, a: Alarm)
    requires After(w, script, m).cursor.End? && m <= n
    ensures Spares(w, script, n, a) == Spares(w, script, m, a)
  {
    if m < n {
      SparesEnd(w, script, m, n - 1, a);
      assert After(w, script, n - 1).cursor.End? by {
        AfterEnd(w, script, m, n - 1);
      }
    }
  }

  /** It does not matter in how many turns a walk that ends is observed. */
  lemma BothEnd(w: Walk, script: nat -> Behaviour, m: nat, n: nat, a: Alarm)
    requires After(w, script, m).cursor.End? && After(w, script, n).cursor.End?
    ensures After(w, script, m) == After(w, script, n)
    ensures RunTurns(w, script, m, a) == RunTurns(w, script, n, a)
    ensures Spares(w, script, m, a) == Spares(w, script, n, a)
  {
    if m <= n {
      AfterEnd(w, script, m, n);
      VisitsEnd(w, script, m, n, a);
      SparesEnd(w, script, m, n, a);
    } else {
      AfterEnd(w, script, n, m);
      VisitsEnd(w, script, n, m, a);
      SparesEnd(w, script, n, m, a);
    }
  }

  lemma OneVisit(w: Walk, script: nat -> Behaviour, n: nat, a: Alarm)
    requires |Visits(w, script, n, a)| == 1
    ensures var v := Visits(w, script, n, a);
            RunTurns(w, script, n, a) == if Runs(After(w, script, v[0])) then v else []
  {
    var v := Visits(w, script, n, a);
    assert v[..0] == [] && v == [v[0]];
    assert Running(w, script, v) == Running(w, script, v[..0]) + (if Runs(After(w, script, v[0])) then [v[0]] else []);
    assert Running(w, script, v[..0]) == [];
  }

  /** In a tidy tick the callback of a linked alarm that is spared runs once or not at all, whatever its
      deadline. */
  lemma TidyTickRuns(s: State, script: nat -> Behaviour, a: Alarm)
    requires Ok(s) && TidyTick(s, script) && a in s.nodes && Spares(Begin(s), script, |s.nodes|, a)
    ensures var runs := RunTurns(Begin(s), script, |s.nodes|, a);
            && |runs| == (if RunsIn(s, script, a) then 1 else 0)
            && (RunsIn(s, script, a) ==> FirstReply(script, runs) == ReplyIn(s, script, a))
  {
    TickOutcome(s, script, a);
    SparedNotStopped(Begin(s), script, |s.nodes|, a);
    var v := TickVisits(s, script, a);
    OneVisit(Begin(s), script, |s.nodes|, a);
    assert v[0] in v && forall k | k in v :: k == v[0];
  }

  lemma TidyTickSettles(s: State, script: nat -> Behaviour, turns: nat, a: Alarm) returns (runs: bool, reply: u32)
    requires Ok(s) && TidyTick(s, script) && After(Begin(s), script, turns).cursor.End? && a in s.nodes
    requires Spares(Begin(s), script, turns, a)
    ensures a in s.deadlines
    ensures Settled(After(Begin(s), script, turns).s, a, s.deadlines[a], reply)
    ensures runs == Expires(Begin(s).s, a)
    ensures var r := RunTurns(Begin(s), script, turns, a);
            |r| == (if runs then 1 else 0) && (runs ==> FirstReply(script, r) == reply)
  {
    assert After(Begin(s), script, |s.nodes|).cursor.End? by {
      TickOutcome(s, script, a);
    }
    BothEnd(Begin(s), script, turns, |s.nodes|, a);
    TidyTickRuns(s, script, a);
    TickSettles(s, script, a);
    runs, reply := RunsIn(s, script, a), ReplyIn(s, script, a);
  }

  ghost predicate AllTidy(s: State, events: seq<Event>)
    decreases |events|
  {
    events != [] ==> (events[0].Ticked? ==> TidyTick(s, events[0].script)) && AllTidy(Apply(s, events[0]), events[1..])
  }

  /** The first tick of what an alarm does by itself, in terms of what a tick does to it. */
  lemma FiresStep(s': State, a: Alarm, d: Deadline, now: nat, reply: u32, later: seq<u32>, ticks: nat)
    requires s'.counter == (now + 1) % M && Settled(s', a, d, reply)
    ensures var runs := Expired(Roll(d, s'.counter), s'.counter);
            Fires(d, now, if runs then [reply] + later else later, ticks + 1)
            == (if runs then [now + 1] else [])
               + (if a in s'.nodes then Fires(s'.deadlines[a], now + 1, later, ticks) else [])
  {
    assert ([reply] + later)[1..] == later;
  }

  /** A tick of a tidy run, whatever the alarm's deadline: what it adds to the trace, and how it leaves it. */
  lemma TidyRunTick(s: State, events: seq<Event>, now: nat, a: Alarm) returns (runs: bool, reply: u32)
    requires events != [] && events[0].Ticked? && LeavesAlone(s, events[0], a) && TidyTick(s, events[0].script)
    requires Ok(s) && s.counter == now % M && a in s.nodes
    ensures a in s.deadlines
    ensures var s', trace := Apply(s, events[0]), Trace(s, events, a);
            && trace != [] && trace[1..] == Trace(s', events[1..], a)
            && trace[0] == (if runs then [reply] else [])
            && s'.counter == (now + 1) % M && Settled(s', a, s.deadlines[a], reply)
            && runs == Expired(Roll(s.deadlines[a], s'.counter), s'.counter)
  {
    var e := events[0];
    runs, reply := TidyTickSettles(s, e.script, e.turns, a);
    ApplyOk(s, e);
    CounterNext(s.counter, now);
    TraceStep(s, events, a, RunTurns(Begin(s), e.script, e.turns, a));
  }

  /** Over any tidy run, the list service runs the callback of a linked alarm, whatever its deadline, at
      exactly the ticks at which the alarm would fire by itself. */
  lemma {:induction false} RunFires(s: State, events: seq<Event>, now: nat, a: Alarm)
    requires Ok(s) && s.counter == now % M && a in s.nodes && AllLeaveAlone(s, events, a) && AllTidy(s, events)
    ensures a in s.deadlines
    ensures var trace := Trace(s, events, a);
            RanAt(trace, now) == Fires(s.deadlines[a], now, RepliesOf(trace), |trace|)
    decreases |events|
  {
    if events != [] {
      var e, s', rest, trace := events[0], Apply(s, events[0]), events[1..], Trace(s, events, a);
      ApplyOk(s, e);
      if !e.Ticked? {
        RunFires(s', rest, now, a);
        assert trace == Trace(s', rest, a);
      } else {
        var runs, reply := TidyRunTick(s, events, now, a);
        FiresStep(s', a, s.deadlines[a], now, reply, RepliesOf(trace[1..]), |trace| - 1);
        if a in s'.nodes {
          RunFires(s', rest, now + 1, a);
        } else {
          IdleRun(s', rest, now + 1, a);
          NeverRuns(trace[1..], now + 1);
        }
        if runs {
          RanOnce(trace, now, reply);
        } else {
          RanQuiet(trace, now);
        }
      }
    }
  }

  // ---- The longest request ----

  /** An alarm that is ahead and spared runs as soon as it is visited, if its deadline has expired. */
  lemma {:induction false} RunsOnceVisited(w: Walk, script: nat -> Behaviour, n: nat, a: Alarm)
    requires WalkOk(w) && a in w.s.nodes && Ahead(w.s.nodes, w.cursor, a) && Spares(w, script, n, a)
    requires a in w.s.deadlines && Expires(w.s, a)
    ensures var u := After(w, script, n);
            || RunTurns(w, script, n, a) != []
            || (a in u.s.nodes && Ahead(u.s.nodes, u.cursor, a) && a in u.s.deadlines && u.s.deadlines[a] == w.s.deadlines[a])
  {
    if n > 0 {
      RunsOnceVisited(w, script, n - 1, a);
      AfterOk(w, script, n - 1);
      RunTurnsNext(w, script, n - 1, a);
      var u := After(w, script, n - 1);
      if RunTurns(w, script, n - 1, a) == [] && u.cursor != At(a) {
        assert StopAlarm(a) in script(n - 1).acts ==> Names(script(n - 1).acts, a) by {
          assert StopAlarm(a).alarm == a;
        }
        TurnAhead(u, script(n - 1), a);
      }
    }
  }

  /** An alarm whose time lies above the counter, in this turn of it, stays as it is. */
  lemma {:induction false} StaysCalm(w: Walk, script: nat -> Behaviour, n: nat, a: Alarm)
    requires WalkOk(w) && a in w.s.nodes && Spares(w, script, n, a)
    requires a in w.s.deadlines && !w.s.deadlines[a].rollover && w.s.counter < w.s.deadlines[a].time
    ensures RunTurns(w, script, n, a) == []
    ensures var u := After(w, script, n);
            a in u.s.nodes && a in u.s.deadlines && u.s.deadlines[a] == w.s.deadlines[a]
  {
    if n > 0 {
      StaysCalm(w, script, n - 1, a);
      AfterOk(w, script, n - 1);
      RunTurnsNext(w, script, n - 1, a);
      var u := After(w, script, n - 1);
      if u.cursor != At(a) {
        TurnSpares(u, script(n - 1), a);
      }
    }
  }

  lemma TickRunsExpired(s: State, script: nat -> Behaviour, turns: nat, a: Alarm)
    requires Ok(s) && a in s.nodes && Expires(Begin(s).s, a)
    requires After(Begin(s), script, turns).cursor.End? && Spares(Begin(s), script, turns, a)
    ensures RunTurns(Begin(s), script, turns, a) != []
  {
    BeginFacts(s);
    RunsOnceVisited(Begin(s), script, turns, a);
  }

  lemma PeriodsFirst(script: nat -> Behaviour, runs: seq<nat>)
    requires runs != []
    ensures Periods(script, runs) != []
  {
  }

  /** An alarm whose deadline has expired by the next tick runs in it. */
  lemma {:induction false} RunsAtNextTick(s: State, events: seq<Event>, now: nat, a: Alarm, d: Deadline)
    requires Ok(s) && a in s.nodes && s.deadlines[a] == d && AllLeaveAlone(s, events, a) && Ticks(events) > 0
    requires var counter: u32 := (s.counter + 1) % M; Expired(Roll(d, counter), counter)
    ensures RanAt(Trace(s, events, a), now) != [] && RanAt(Trace(s, events, a), now)[0] == now + 1
    decreases |events|
  {
    var e, s', rest, trace := events[0], Apply(s, events[0]), events[1..], Trace(s, events, a);
    ApplyOk(s, e);
    if !e.Ticked? {
      RunsAtNextTick(s', rest, now, a, d);
      assert trace == Trace(s', rest, a);
    } else {
      TickRunsExpired(s, e.script, e.turns, a);
      PeriodsFirst(e.script, RunTurns(Begin(s), e.script, e.turns, a));
      assert trace[0] != [];
    }
  }

  lemma WrapTracks(now: nat)
    requires now % M == M - 1
    ensures (now + 1) % M == 0 && Tracks(Deadline(M - 1, false), now + 1, now + M)
  {
  }

  /** An alarm whose time is the greatest there is, when the counter wraps at the next tick, is due a full turn
      of the counter from now. */
  lemma {:induction false} WrapKeepsPromise(s: State, events: seq<Event>, now: nat, a: Alarm)
    requires Ok(s) && a in s.nodes && s.counter == now % M == M - 1 && s.deadlines[a] == Deadline(M - 1, false)
    requires AllLeaveAlone(s, events, a)
    ensures KeepsPromise(Trace(s, events, a), now, DueAt(now + M))
    decreases |events|
  {
    if events != [] {
      var e, s', rest, trace := events[0], Apply(s, events[0]), events[1..], Trace(s, events, a);
      ApplyOk(s, e);
      if !e.Ticked? {
        WrapKeepsPromise(s', rest, now, a);
        assert trace == Trace(s', rest, a);
      } else {
        BeginFacts(s);
        WrapTracks(now);
        StaysCalm(Begin(s), e.script, e.turns, a);
        TraceStep(s, events, a, []);
        RunKeepsPromise(s', rest, now + 1, a, now + M);
        PromiseStep(trace, now, now + M, 0, DueAt(now + M));
      }
    }
  }

  lemma NotPromised(ran: seq<nat>, due: nat, replies: seq<u32>, last: nat)
    requires ran != [] && ran[0] < due
    ensures ran != Promised(due, replies, last)
  {
  }

  /** A linked alarm with the deadline of a start that can be kept, at any counter. */
  lemma ArmedRun(s: State, events: seq<Event>, now: nat, a: Alarm, nticks: u32)
    requires Ok(s) && s.counter == now % M && a in s.nodes && s.deadlines[a] == Arm(now % M, nticks)
    requires AllLeaveAlone(s, events, a) && (nticks < M - 1 || now % M == M - 1)
    ensures KeepsPromise(Trace(s, events, a), now, DueAt(now + nticks + 1))
  {
    if nticks < M - 1 {
      ArmTracks(now, nticks);
      RunKeepsPromise(s, events, now, a, now + nticks + 1);
    } else {
      assert Arm(now % M, nticks) == Deadline(M - 1, false);
      WrapKeepsPromise(s, events, now, a);
    }
  }

  /** And with that of the start that cannot. */
  lemma EarlyRun(s: State, events: seq<Event>, now: nat, a: Alarm, nticks: u32)
    requires Ok(s) && s.counter == now % M && a in s.nodes && s.deadlines[a] == Arm(now % M, nticks)
    requires AllLeaveAlone(s, events, a) && Ticks(events) > 0 && nticks == M - 1 && now % M != M - 1
    ensures var ran := RanAt(Trace(s, events, a), now); ran != [] && ran[0] == now + 1
  {
    var d := Arm(now % M, nticks);
    assert d == Deadline(s.counter, false) && (s.counter + 1) % M == s.counter + 1;
    RunsAtNextTick(s, events, now, a, d);
  }

  /** An idle alarm that is started for `nticks` ticks runs its callback at exactly the promised ticks of
      the run that follows, if and only if `nticks` is below 2^32 - 1 or the counter stands at
      2^32 - 1. */
  lemma StartedRunIff(s: State, events: seq<Event>, now: nat, a: Alarm, nticks: u32)
    requires Ok(s) && s.counter == now % M && s.rate != 0 && a in s.deadlines && a !in s.nodes
    requires AllLeaveAlone(Start(s, a, nticks), events, a) && Ticks(events) > 0
    ensures var trace := Trace(Start(s, a, nticks), events, a);
            RanAt(trace, now) == Promised(now + nticks + 1, RepliesOf(trace), now + Ticks(events))
            <==> nticks < M - 1 || now % M == M - 1
  {
    var q := Start(s, a, nticks);
    var trace, due := Trace(q, events, a), now + nticks + 1;
    assert Ok(q) && q.counter == s.counter by {
      ApplyOk(s, Started(a, nticks));
    }
    TraceTicks(q, events, a);
    if nticks < M - 1 || now % M == M - 1 {
      ArmedRun(q, events, now, a, nticks);
      PromisedTicks(trace, now, due);
    } else {
      EarlyRun(q, events, now, a, nticks);
      NotPromised(RanAt(trace, now), due, RepliesOf(trace), now + Ticks(events));
    }
  }

  // ---- No alarm is missed ----

  /** The deadline stands for a tick that lies ahead. */
  ghost predicate InFuture(d: Deadline, now: nat) {
    exists due: nat :: Tracks(d, now, due)
  }

  ghost predicate OnTime(s: State, now: nat, a: Alarm) {
    a in s.deadlines && InFuture(s.deadlines[a], now)
  }

  /** The callback of `a` asks for nothing that the 32-bit time cannot express. */
  ghost predicate Modest(b: Behaviour, a: Alarm) {
    forall act | act in b.acts && act.StartAlarm? ::
      act.nticks < M - 1 && (act.alarm == a ==> act.nticks + 1 + b.period < M)
  }

  /** The deadline of an alarm during its own callback: this tick, or that of its last start by an act. */
  ghost predicate OwnDeadline(d: Deadline, now: nat, acts: seq<Act>, a: Alarm) {
    d == Deadline(now % M, false) || exists n: u32 :: StartAlarm(a, n) in acts && Tracks(d, now, now + n + 1)
  }

  /** An alarm is due in the future, or stands as the tick before left it and is still to be visited. */
  ghost predicate Status(s: State, c: Cursor, now: nat, y: Alarm)
    requires now > 0
  {
    OnTime(s, now, y) || (OnTime(s, now - 1, y) && Ahead(s.nodes, c, y))
  }

  /** This is so of all linked alarms but `a`, whose callback runs; and the alarm at the cursor, linked or not,
      is due in the future or stands as the tick before left it. */
  ghost predicate AllStatus(s: State, c: Cursor, now: nat, a: Alarm)
    requires now > 0
  {
    && (forall y | y in s.nodes && y != a :: Status(s, c, now, y))
    && (c.At? && c.alarm != a ==> OnTime(s, now, c.alarm) || OnTime(s, now - 1, c.alarm))
  }

  lemma EffectStatus(s: State, act: Act, c: Cursor, now: nat, a: Alarm)
    requires Ok(s) && now > 0 && s.counter == now % M && AllStatus(s, c, now, a)
    requires act.StartAlarm? ==> act.nticks < M - 1
    ensures AllStatus(Effect(s, act), c, now, a)
  {
    var q := Effect(s, act);
    if act.StartAlarm? {
      ArmTracks(now, act.nticks);
      assert act.alarm in q.nodes && act.alarm !in s.nodes ==>
               Tracks(q.deadlines[act.alarm], now, now + act.nticks + 1);
    }
    forall y | y in q.nodes && y != a
      ensures Status(q, c, now, y)
    {
      if y in s.nodes {
        assert Status(s, c, now, y);
        if !OnTime(s, now, y) {
          EffectAhead(s, act, c, y);
        }
      }
    }
  }

  lemma {:induction false} EffectsStatus(s: State, acts: seq<Act>, c: Cursor, now: nat, a: Alarm)
    requires Ok(s) && now > 0 && s.counter == now % M && AllStatus(s, c, now, a)
    requires forall act | act in acts && act.StartAlarm? :: act.nticks < M - 1
    ensures AllStatus(Effects(s, acts), c, now, a)
  {
    var n := |acts| - 1;
    if n >= 0 {
      EffectsStatus(s, acts[..n], c, now, a);
      EffectsOk(s, acts[..n]);
      EffectStatus(Effects(s, acts[..n]), acts[n], c, now, a);
    }
  }

  lemma {:induction false} EffectsOwn(s: State, acts: seq<Act>, now: nat, a: Alarm)
    requires Ok(s) && s.counter == now % M && a in s.deadlines && s.deadlines[a] == Deadline(now % M, false)
    requires forall act | act in acts && act.StartAlarm? :: act.nticks < M - 1
    ensures a in Effects(s, acts).deadlines && OwnDeadline(Effects(s, acts).deadlines[a], now, acts, a)
  {
    var n := |acts| - 1;
    if n >= 0 {
      EffectsOwn(s, acts[..n], now, a);
      EffectsOk(s, acts[..n]);
      assert acts[n] in acts && forall act | act in acts[..n] :: act in acts;
      if acts[n].StartAlarm? {
        ArmTracks(now, acts[n].nticks);
      }
    }
  }

  lemma OwnRearmed(d: Deadline, now: nat, b: Behaviour, a: Alarm)
    requires OwnDeadline(d, now, b.acts, a) && Modest(b, a) && b.period != 0
    ensures InFuture(Rearm(d, now % M, b.period), now)
  {
    if d == Deadline(now % M, false) {
      RearmTracks(d, now, now, b.period);
    } else {
      var n: u32 :| StartAlarm(a, n) in b.acts && Tracks(d, now, now + n + 1);
      assert StartAlarm(a, n).nticks + 1 + b.period < M;
      RearmTracks(d, now, now + n + 1, b.period);
    }
  }

  /** What the deadline of the alarm at the cursor may be: it is due in the future, or stands as the tick before
      left it, or its callback has run in this tick. */
  ghost predicate Good(s: State, now: nat, a: Alarm)
    requires now > 0
  {
    OnTime(s, now, a) || OnTime(s, now - 1, a) || (a in s.deadlines && s.deadlines[a] == Deadline(now % M, false))
  }

  /** The state of a walk in the tick `now`: linked alarms are due in the future, or ahead and as the tick
      before left them. */
  ghost predicate WalkOnTime(w: Walk, now: nat) {
    && now > 0 && w.s.counter == now % M
    && (forall y | y in w.s.nodes :: Status(w.s, w.cursor, now, y))
    && (w.cursor.At? ==> Good(w.s, now, w.cursor.alarm))
  }

  /** Visiting an alarm either finds it expired or leaves it due in the future. */
  lemma RolledGood(s: State, now: nat, a: Alarm)
    requires now > 0 && s.counter == now % M && a in s.deadlines && Good(s, now, a)
    ensures if Expires(s, a) then Rolled(s, a).deadlines[a] == Deadline(now % M, false)
            else OnTime(Rolled(s, a), now, a)
  {
    var d := s.deadlines[a];
    if OnTime(s, now, a) {
      var due: nat :| Tracks(d, now, due);
      StillTracks(d, now, due);
    } else if OnTime(s, now - 1, a) {
      var due: nat :| Tracks(d, now - 1, due);
      TickTracks(d, now - 1, due);
    }
  }

  lemma NextStatus(w: Walk, now: nat)
    requires WalkOk(w) && WalkOnTime(w, now) && w.cursor.At?
    ensures AllStatus(Rolled(w.s, w.cursor.alarm), Next(w.s.nodes, w.cursor.alarm), now, w.cursor.alarm)
  {
    var a := w.cursor.alarm;
    var r, next := Rolled(w.s, a), Next(w.s.nodes, a);
    forall y | y in r.nodes && y != a
      ensures Status(r, next, now, y)
    {
      assert Status(w.s, w.cursor, now, y);
      if OnTime(w.s, now, y) {
        assert OnTime(r, now, y);
      } else {
        assert OnTime(r, now - 1, y);
        NextAhead(w.s.nodes, a, y);
      }
    }
    NextIn(w.s.nodes, a);
    if next.At? && next.alarm != a {
      assert Status(r, next, now, next.alarm);
    }
  }

  /** The part of a turn after the deadline has expired. */
  lemma FiringOnTime(r: State, b: Behaviour, next: Cursor, now: nat, a: Alarm)
    requires Ok(r) && now > 0 && r.counter == now % M && AllStatus(r, next, now, a) && Modest(b, a)
    requires a in r.deadlines && r.deadlines[a] == Deadline(now % M, false)
    ensures a in Effects(r, b.acts).deadlines
    ensures WalkOnTime(Walk(Settle(Effects(r, b.acts), a, b.period), next), now)
  {
    var e := Effects(r, b.acts);
    EffectsStatus(r, b.acts, next, now, a);
    EffectsOwn(r, b.acts, now, a);
    EffectsOk(r, b.acts);
    var q := Settle(e, a, b.period);
    if b.period != 0 {
      OwnRearmed(e.deadlines[a], now, b, a);
      assert OnTime(q, now, a);
    }
    forall y | y in q.nodes
      ensures Status(q, next, now, y)
    {
      if y != a {
        assert Status(e, next, now, y);
        if OnTime(e, now, y) {
          assert OnTime(q, now, y);
        } else {
          assert OnTime(q, now - 1, y);
          StopAhead(e.nodes, next, y, a);
        }
      }
    }
    if next.At? {
      OwnGood(e, q, b, next.alarm, now, a);
    }
  }

  /** The alarm visited next, be it the one whose callback has run or another. */
  lemma OwnGood(e: State, q: State, b: Behaviour, x: Alarm, now: nat, a: Alarm)
    requires now > 0 && a in e.deadlines && e.counter == now % M && q == Settle(e, a, b.period)
    requires OwnDeadline(e.deadlines[a], now, b.acts, a) && (b.period != 0 ==> OnTime(q, now, a))
    requires x != a ==> OnTime(e, now, x) || OnTime(e, now - 1, x)
    ensures Good(q, now, x)
  {
    if x != a {
      assert OnTime(e, now, x) ==> OnTime(q, now, x);
      assert OnTime(e, now - 1, x) ==> OnTime(q, now - 1, x);
    } else if b.period == 0 && e.deadlines[a] != Deadline(now % M, false) {
      var n: u32 :| StartAlarm(a, n) in b.acts && Tracks(e.deadlines[a], now, now + n + 1);
    }
  }

  lemma TurnOnTime(w: Walk, b: Behaviour, now: nat)
    requires WalkOk(w) && w.cursor.At? && WalkOnTime(w, now) && (Runs(w) ==> Modest(b, w.cursor.alarm))
    ensures WalkOnTime(Turn(w, b), now)
  {
    var a := w.cursor.alarm;
    var r, next := Rolled(w.s, a), Next(w.s.nodes, a);
    NextStatus(w, now);
    RolledGood(w.s, now, a);
    if Runs(w) {
      FiringOnTime(r, b, next, now, a);
    } else {
      forall y | y in r.nodes
        ensures Status(r, next, now, y)
      {
        assert y != a ==> Status(r, next, now, y);
      }
    }
  }

  /** The callbacks that run in the first n turns are modest. */
  ghost predicate ModestWalk(w: Walk, script: nat -> Behaviour, n: nat) {
    n > 0 ==>
      && ModestWalk(w, script, n - 1)
      && (Runs(After(w, script, n - 1)) ==> Modest(script(n - 1), After(w, script, n - 1).cursor.alarm))
  }

  lemma {:induction false} WalkKeepsOnTime(w: Walk, script: nat -> Behaviour, n: nat, now: nat)
    requires WalkOk(w) && WalkOnTime(w, now) && ModestWalk(w, script, n)
    ensures WalkOnTime(After(w, script, n), now)
  {
    if n > 0 {
      WalkKeepsOnTime(w, script, n - 1, now);
      AfterOk(w, script, n - 1);
      var u := After(w, script, n - 1);
      if u.cursor.At? {
        TurnOnTime(u, script(n - 1), now);
      }
    }
  }

  /** Every linked alarm is due in the future. */
  ghost predicate AllOnTime(s: State, now: nat) {
    s.counter == now % M && forall a | a in s.nodes :: OnTime(s, now, a)
  }

  /** The request is one that the 32-bit time can express, and callbacks ask for nothing else.  If the event
      is a tick, it ends. */
  ghost predicate Expressible(s: State, e: Event) {
    && Over(s, e)
    && match e
       case Started(_, nticks) => nticks < M - 1
       case Stopped(_) => true
       case Ticked(script, turns) => ModestWalk(Begin(s), script, turns)
  }

  ghost predicate AllExpressible(s: State, events: seq<Event>)
    decreases |events|
  {
    events == [] || (Expressible(s, events[0]) && AllExpressible(Apply(s, events[0]), events[1..]))
  }

  lemma BeginOnTime(s: State, now: nat)
    requires Ok(s) && AllOnTime(s, now)
    ensures WalkOnTime(Begin(s), now + 1)
  {
    var w := Begin(s);
    BeginFacts(s);
    CounterNext(s.counter, now);
    forall y | y in w.s.nodes
      ensures OnTime(w.s, now, y) && Ahead(w.s.nodes, w.cursor, y)
    {
      assert OnTime(s, now, y);
    }
  }

  lemma ApplyOnTime(s: State, e: Event, now: nat)
    requires Ok(s) && AllOnTime(s, now) && Expressible(s, e)
    ensures AllOnTime(Apply(s, e), if e.Ticked? then now + 1 else now)
  {
    ApplyOk(s, e);
    match e {
      case Started(a, nticks) =>
        ArmTracks(now, nticks);
        assert a in Apply(s, e).nodes && a !in s.nodes ==> Tracks(Apply(s, e).deadlines[a], now, now + nticks + 1);
        assert forall y | y in s.nodes :: OnTime(s, now, y);
      case Stopped(a) =>
        assert forall y | y in s.nodes :: OnTime(s, now, y);
      case Ticked(script, turns) =>
        BeginFacts(s);
        BeginOnTime(s, now);
        WalkKeepsOnTime(Begin(s), script, turns, now + 1);
    }
  }

  /** In every state of every run of expressible requests every linked alarm is due in the future: none is
      ever passed by, however callbacks stop and start alarms. */
  lemma {:induction false} RunKeepsOnTime(s: State, events: seq<Event>, now: nat)
    requires Ok(s) && AllOnTime(s, now) && AllExpressible(s, events)
    ensures Ok(AfterAll(s, events)) && AllOnTime(AfterAll(s, events), now + Ticks(events))
    decreases |events|
  {
    if events != [] {
      ApplyOk(s, events[0]);
      ApplyOnTime(s, events[0], now);
      RunKeepsOnTime(Apply(s, events[0]), events[1..], if events[0].Ticked? then now + 1 else now);
    }
  }

  // ---- Runs with given turns ----

  datatype Outcome = Outcome(s: State, done: bool)

  /** Where a run stands when it is over, or when the turns of one of its ticks are used up. */
  ghost function Played(s: State, events: seq<Event>): Outcome
    decreases |events|
  {
    if events == [] then Outcome(s, true)
    else if Over(s, events[0]) then Played(Apply(s, events[0]), events[1..])
    else Outcome(Apply(s, events[0]), false)
  }

  lemma {:induction false} PlayedAll(s: State, events: seq<Event>)
    ensures Played(s, events).done <==> Completes(s, events)
    ensures Completes(s, events) ==> Played(s, events).s == AfterAll(s, events)
    decreases |events|
  {
    if events != [] {
      PlayedAll(Apply(s, events[0]), events[1..]);
    }
  }
}
