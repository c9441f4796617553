/** The alarm service: the list, the counter and the deadlines updated in place, by the calls that start and
    stop alarms and by the tick interrupt that walks the list.  Each operation is proved to do what
    `AlarmSpec` says. */
module Alarms {
  import opened Common
  import opened AlarmTime
  import opened AlarmList
  import Spec = AlarmSpec
  import Walks = AlarmWalks
  import Runs = AlarmRuns

  datatype StartResult = Started | InvalidArgument | NotSupported

  /** An alarm that is not linked: never started, or removed. */
  predicate Idle(a: Alarm)
    reads a
  {
    a.next == null || SelfLinked(a)
  }

  class AlarmService {
    const head: Alarm
    const pool: set<Alarm>      // every alarm of the program
    var tickRate: u32
    var counter: u32            // the 32-bit tick counter
    ghost var nodes: seq<Alarm> // the linked alarms, in list order

    /** The list is well formed, and every alarm that is not in it is idle. */
    ghost predicate Valid()
      reads this, pool, head, nodes
    {
      && head !in pool && (forall a | a in nodes :: a in pool)
      && Circular(head, nodes)
      && (forall a | a in pool :: a in nodes || Idle(a))
    }

    ghost function State(): Spec.State
      reads this, pool
    {
      Spec.State(nodes, map a | a in pool :: a.deadline, counter, tickRate)
    }

    /** An alarm that was ever started keeps having links. */
    twostate predicate KeepsLinks()
      reads pool
    {
      forall a | a in pool :: old(a.next) != null ==> a.next != null
    }

    lemma StateOk()
      requires Valid()
      ensures Spec.Ok(State()) && State().deadlines.Keys == pool
    {
    }

    /** An empty list. */
    constructor (rate: u32, alarms: set<Alarm>)
      requires forall a | a in alarms :: a.next == null
      ensures Valid() && nodes == [] && counter == 0 && tickRate == rate
      ensures pool == alarms && fresh(head)
    {
      var h := new Alarm.Head();
      head, pool, tickRate, counter, nodes := h, alarms, rate, 0, [];
    }

    /** `alt_alarm_start`: fails without a system clock or without an alarm; otherwise links the alarm at the
        front of the list with a new deadline. */
    method Start(alarm: Alarm?, nticks: u32) returns (r: StartResult)
      requires Valid() && (alarm != null ==> alarm in pool && alarm !in nodes)
      modifies this`nodes, head, pool
      ensures Valid() && KeepsLinks()
      ensures r == if tickRate == 0 then NotSupported else if alarm == null then InvalidArgument else Started
      ensures State() == if alarm == null then old(State()) else Spec.Start(old(State()), alarm, nticks)
    {
      if tickRate == 0 {
        return NotSupported;
      }
      if alarm == null {
        return InvalidArgument;
      }
      alarm.deadline := Arm(counter, nticks);
      assert State().deadlines == old(State()).deadlines[alarm := alarm.deadline];
      Insert(head, alarm, nodes);
      nodes := [alarm] + nodes;
      return Started;
    }

    /** `alt_alarm_stop`: unlinks the alarm, or does nothing if it is already unlinked. */
    method Stop(alarm: Alarm)
      requires Valid() && alarm in pool && alarm.next != null
      modifies this`nodes, head, pool
      ensures Valid() && KeepsLinks()
      ensures State() == Spec.Stop(old(State()), alarm)
    {
      RemoveFrom(head, alarm, nodes);
      nodes := Without(nodes, alarm);
    }

    /** In the program's pool the idle alarms are those that are not linked. */
    lemma IdleIff(a: Alarm)
      requires Valid() && a in pool
      ensures Idle(a) <==> a !in nodes
    {
      if a in nodes {
        var i :| 0 <= i < |nodes| && nodes[i] == a;
        assert nodes[i].next == Entry(head, nodes, i + 1) != a;
      }
    }

    /** One act of a callback: to start an idle alarm, its own included once it has stopped that, or to stop
        any alarm that was ever started, its own and the one the walk visits next included. */
    method Perform(act: Spec.Act)
      requires Valid()
      modifies this`nodes, head, pool
      ensures Valid() && KeepsLinks()
      ensures State() == Spec.Effect(old(State()), act)
    {
      if act.alarm in pool {
        IdleIff(act.alarm);
        match act {
          case StartAlarm(a, nticks) =>
            if Idle(a) {
              var r := Start(a, nticks);
            }
          case StopAlarm(a) =>
            if a.next != null {
              Stop(a);
            } else {
              WithoutAbsent(nodes, a);
            }
        }
      } else {
        WithoutAbsent(nodes, act.alarm);
      }
    }

    /** A callback's acts, one after the other. */
    method Callback(acts: seq<Spec.Act>)
      requires Valid()
      modifies this`nodes, head, pool
      ensures Valid() && KeepsLinks()
      ensures State() == Spec.Effects(old(State()), acts)
    {
      for i := 0 to |acts|
        invariant Valid() && KeepsLinks()
        invariant State() == Spec.Effects(old(State()), acts[..i])
      {
        assert acts[..i + 1][..i] == acts[..i];
        Perform(acts[i]);
      }
      assert acts[..|acts|] == acts;
    }

    /** What follows a callback: unlinks the alarm, or adds the returned period to its deadline. */
    method Settle(alarm: Alarm, period: u32)
      requires Valid() && alarm in pool && alarm.next != null
      modifies this`nodes, head, pool
      ensures Valid() && KeepsLinks()
      ensures State() == Spec.Settle(old(State()), alarm, period)
    {
      if period == 0 {
        Stop(alarm);
      } else {
        alarm.deadline := Rearm(alarm.deadline, counter, period);
      }
    }

    /** The body of the tick's loop for one alarm, whose callback behaves as `b` if its deadline has
        expired. */
    method Visit(alarm: Alarm, b: Spec.Behaviour)
      requires Valid() && alarm in pool && alarm.next != null
      modifies this`nodes, head, pool
      ensures Valid() && KeepsLinks()
      ensures State() == Spec.Visit(old(State()), alarm, b)
    {
      alarm.deadline := Roll(alarm.deadline, counter);
      assert State() == Spec.Rolled(old(State()), alarm);
      if Expired(alarm.deadline, counter) {
        Callback(b.acts);
        Settle(alarm, b.period);
      }
    }

    /** The cursor that an entry of the list stands for: the head ends a walk. */
    ghost function CursorOf(entry: Alarm): Spec.Cursor {
      if entry == head then Spec.End else Spec.At(entry)
    }

    /** The forward link of an alarm leads to what the list says is next; an alarm that is not linked points
        to itself. */
    lemma NextIs(alarm: Alarm)
      requires Valid() && alarm in pool && alarm.next != null
      ensures CursorOf(alarm.next) == Spec.Next(nodes, alarm)
      ensures alarm.next == head || alarm.next in pool
    {
      if alarm in nodes {
        var i :| 0 <= i < |nodes| && nodes[i] == alarm;
        NextAt(nodes, i);
      } else {
        Spec.NextUnlinked(nodes, alarm);
      }
    }

    /** A walk begins at the first linked alarm. */
    lemma FirstIs()
      requires Valid()
      ensures head.next != null && CursorOf(head.next) == if nodes == [] then Spec.End else Spec.At(nodes[0])
      ensures head.next == head || (head.next in pool && head.next.next != null)
    {
    }

    /** A turn of the tick's loop.  The next alarm is looked up before the callback runs. */
    method Turn(alarm: Alarm, b: Spec.Behaviour) returns (next: Alarm)
      requires Valid() && alarm in pool && alarm.next != null
      modifies this`nodes, head, pool
      ensures Valid() && KeepsLinks() && (next == head || (next in pool && next.next != null))
      ensures Spec.Walk(State(), CursorOf(next)) == Spec.Turn(Spec.Walk(old(State()), CursorOf(alarm)), b)
    {
      NextIs(alarm);
      next := alarm.next;
      Visit(alarm, b);
    }

    /** The tick's loop, up to `turns` turns of it. */
    method Walk(first: Alarm, script: nat -> Spec.Behaviour, turns: nat) returns (done: bool)
      requires Valid() && (first == head || (first in pool && first.next != null))
      modifies this`nodes, head, pool
      ensures Valid() && KeepsLinks()
      ensures var w := Spec.After(Spec.Walk(old(State()), CursorOf(first)), script, turns);
              State() == w.s && (done <==> w.cursor.End?)
    {
      var alarm := first;
      var i := 0;
      ghost var begin := Spec.Walk(State(), CursorOf(first));
      while alarm != head && i < turns
        invariant Valid() && KeepsLinks() && i <= turns
        invariant alarm == head || (alarm in pool && alarm.next != null)
        invariant Spec.After(begin, script, i) == Spec.Walk(State(), CursorOf(alarm))
      {
        alarm := Turn(alarm, script(i));
        i := i + 1;
      }
      if alarm == head {
        Spec.AfterEnd(begin, script, i, turns);
      }
      done := alarm == head;
    }

    /** The tick interrupt: advances the counter, which wraps at 2^32, and walks the list.  `script(k)` is how
        the callback of turn k behaves, if one runs in it; `turns` bounds the turns in the part of the
        run that is modelled. */
    method Tick(script: nat -> Spec.Behaviour, turns: nat) returns (done: bool)
      requires Valid()
      modifies this`counter, this`nodes, head, pool
      ensures Valid() && KeepsLinks()
      ensures var w := Spec.After(Spec.Begin(old(State())), script, turns);
              State() == w.s && (done <==> w.cursor.End?)
    {
      FirstIs();
      var alarm: Alarm := head.next;
      counter := (counter + 1) % M;
      assert Spec.Walk(State(), CursorOf(alarm)) == Spec.Begin(old(State()));
      done := Walk(alarm, script, turns);
    }
  }

  lemma {:induction false} NextAt(nodes: seq<Alarm>, i: nat)
    requires Distinct(nodes) && i < |nodes|
    ensures Spec.Next(nodes, nodes[i]) == if i + 1 < |nodes| then Spec.At(nodes[i + 1]) else Spec.End
  {
    if i > 0 {
      NextAt(nodes[1..], i - 1);
    }
  }

  /** What happens outside callbacks: calls of the program, and ticks.  An alarm that is linked is not
      started, and one that was never started is not stopped.  `over` tells whether the event is over: a
      tick is unless its walk has used up its turns. */
  method Handle(service: AlarmService, e: Runs.Event) returns (over: bool)
    requires service.Valid()
    modifies service`counter, service`nodes, service.head, service.pool
    ensures service.Valid()
    ensures service.State() == Runs.Apply(old(service.State()), e)
    ensures over <==> Runs.Over(old(service.State()), e)
  {
    match e {
      case Started(a, nticks) =>
        service.Perform(Spec.StartAlarm(a, nticks));
        over := true;
      case Stopped(a) =>
        service.Perform(Spec.StopAlarm(a));
        over := true;
      case Ticked(script, turns) =>
        over := service.Tick(script, turns);
    }
  }

  /** Any run of the service, with any behaviour of callbacks, up to the first tick that is not over within
      its turns.  It gets to the end exactly if every tick ends, and is then in the state that the
      theorems about runs are about. */
  method Play(service: AlarmService, events: seq<Runs.Event>) returns (done: bool)
    requires service.Valid()
    modifies service`counter, service`nodes, service.head, service.pool
    ensures service.Valid()
    ensures Runs.Outcome(service.State(), done) == Runs.Played(old(service.State()), events)
    ensures done <==> Runs.Completes(old(service.State()), events)
    ensures Runs.TidyRun(old(service.State()), events) ==> done
    ensures done ==> service.State() == Runs.AfterAll(old(service.State()), events)
  {
    service.StateOk();
    Runs.PlayedAll(service.State(), events);
    if Runs.TidyRun(service.State(), events) {
      Runs.TidyCompletes(service.State(), events);
    }
    ghost var played := Runs.Played(service.State(), events);
    done := true;
    var i := 0;
    while i < |events| && done
      invariant service.Valid() && i <= |events|
      invariant played == if done then Runs.Played(service.State(), events[i..]) else Runs.Outcome(service.State(), false)
      decreases |events| - i
    {
      assert events[i..][0] == events[i] && events[i..][1..] == events[i + 1..];
      done := Handle(service, events[i]);
      i := i + 1;
    }
  }

  /** No alarm is linked twice. */
  lemma {:induction false} Fits(nodes: seq<Alarm>, pool: set<Alarm>)
    requires Distinct(nodes) && forall a | a in nodes :: a in pool
    ensures |nodes| <= |pool|
  {
    if nodes != [] {
      Fits(nodes[1..], pool - {nodes[0]});
    }
  }

  /** A tick whose callbacks do not stop the alarm visited next is over within as many turns as the program
      has alarms. */
  lemma TurnsForAll(service: AlarmService, script: nat -> Spec.Behaviour, turns: nat)
    requires service.Valid() && |service.pool| <= turns && Walks.TidyTick(service.State(), script)
    ensures Runs.Over(service.State(), Runs.Ticked(script, turns))
  {
    service.StateOk();
    Fits(service.nodes, service.pool);
    Walks.TurnsSuffice(service.State(), script, turns);
  }
}
