/** The alarm service on plain sequences: what starting, stopping and the walk of a tick do to the list
    and the deadlines.  Alarms serve as names here; their fields do not matter. */
module AlarmSpec {
  import opened Common
  import opened AlarmTime
  import opened AlarmList

  /** The linked alarms in list order, the deadline of every alarm of the program, the tick counter, and
      the clock rate (0 without a clock). */
  datatype State = State(nodes: seq<Alarm>, deadlines: map<Alarm, Deadline>, counter: u32, rate: u32)

  /** One thing a callback may do. */
  datatype Act = StartAlarm(alarm: Alarm, nticks: u32) | StopAlarm(alarm: Alarm)

  /** What a callback does when it is called, and the period it returns. */
  datatype Behaviour = Behaviour(acts: seq<Act>, period: u32)

  ghost predicate Ok(s: State) {
    Distinct(s.nodes) && forall a | a in s.nodes :: a in s.deadlines
  }

  /** The two states are about the same alarms, at the same tick. */
  ghost predicate SameTick(s: State, q: State) {
    q.deadlines.Keys == s.deadlines.Keys && q.counter == s.counter && q.rate == s.rate
  }

  /** Links an idle alarm in at the front, with a new deadline; nothing happens without a clock. */
  ghost function Start(s: State, a: Alarm, nticks: u32): State {
    if s.rate == 0 || a in s.nodes || a !in s.deadlines then s
    else s.(nodes := [a] + s.nodes, deadlines := s.deadlines[a := Arm(s.counter, nticks)])
  }

  /** Unlinks an alarm, if it is linked. */
  ghost function Stop(s: State, a: Alarm): State {
    s.(nodes := Without(s.nodes, a))
  }

  ghost function Effect(s: State, act: Act): State {
    match act
    case StartAlarm(a, nticks) => Start(s, a, nticks)
    case StopAlarm(a) => Stop(s, a)
  }

  /** A callback's acts, one after the other. */
  ghost function Effects(s: State, acts: seq<Act>): State {
    var n := |acts| - 1;
    if n < 0 then s else Effect(Effects(s, acts[..n]), acts[n])
  }

  /** What follows a callback: a period of zero unlinks the alarm, any other is added to its deadline. */
  ghost function Settle(s: State, a: Alarm, period: u32): State
    requires a in s.deadlines
  {
    if period == 0 then Stop(s, a)
    else s.(deadlines := s.deadlines[a := Rearm(s.deadlines[a], s.counter, period)])
  }

  /** Has the alarm's deadline expired, once the rollover bit is cleared if the counter has wrapped? */
  ghost predicate Expires(s: State, a: Alarm)
    requires a in s.deadlines
  {
    Expired(Roll(s.deadlines[a], s.counter), s.counter)
  }

  ghost function Rolled(s: State, a: Alarm): State
    requires a in s.deadlines
  {
    s.(deadlines := s.deadlines[a := Roll(s.deadlines[a], s.counter)])
  }

  /** The body of the tick's loop for one alarm, whose callback behaves as `b` if it runs. */
  ghost function Visit(s: State, a: Alarm, b: Behaviour): State
    requires a in s.deadlines
  {
    var q := Effects(Rolled(s, a), b.acts);
    if !Expires(s, a) then Rolled(s, a)
    else if a in q.deadlines then Settle(q, a, b.period)
    else q
  }

  // ---- The walk ----

  /** Where a walk stands: at the head, which ends it, or at the alarm it visits next. */
  datatype Cursor = End | At(alarm: Alarm)

  /** What the forward link of an alarm leads to.  One that is not linked points to itself. */
  ghost function Next(nodes: seq<Alarm>, a: Alarm): Cursor {
    if nodes == [] then At(a)
    else if nodes[0] == a then (if |nodes| > 1 then At(nodes[1]) else End)
    else Next(nodes[1..], a)
  }

  /** The linked alarms from the cursor on. */
  ghost function Rest(nodes: seq<Alarm>, c: Cursor): seq<Alarm> {
    if c.End? || nodes == [] then []
    else if nodes[0] == c.alarm then nodes
    else Rest(nodes[1..], c)
  }

  datatype Walk = Walk(s: State, cursor: Cursor)

  /** A turn of the loop: the next alarm is looked up, and then the present one is visited. */
  ghost function Turn(w: Walk, b: Behaviour): Walk {
    if w.cursor.End? || w.cursor.alarm !in w.s.deadlines then w
    else Walk(Visit(w.s, w.cursor.alarm, b), Next(w.s.nodes, w.cursor.alarm))
  }

  /** The walk after n turns, when the callback of turn k, if one runs, behaves as `script(k)`. */
  ghost function After(w: Walk, script: nat -> Behaviour, n: nat): Walk {
    if n == 0 then w else Turn(After(w, script, n - 1), script(n - 1))
  }

  /** The tick counts and the walk begins at the first linked alarm. */
  ghost function Begin(s: State): Walk {
    Walk(s.(counter := (s.counter + 1) % M), if s.nodes == [] then End else At(s.nodes[0]))
  }

  ghost predicate WalkOk(w: Walk) {
    Ok(w.s) && (w.cursor.At? ==> w.cursor.alarm in w.s.deadlines)
  }

  /** The walk has ended, or stands at an alarm that is linked. */
  ghost predicate OnList(w: Walk) {
    w.cursor.End? || w.cursor.alarm in w.s.nodes
  }

  ghost function ToVisit(w: Walk): seq<Alarm> {
    Rest(w.s.nodes, w.cursor)
  }

  /** Does the coming turn run the callback of the alarm at the cursor? */
  ghost predicate Runs(w: Walk) {
    w.cursor.At? && w.cursor.alarm in w.s.deadlines && Expires(w.s, w.cursor.alarm)
  }

  /** The callback of the coming turn, if one runs, does not stop the alarm that is visited next. */
  ghost predicate Tidy(w: Walk, b: Behaviour) {
    Runs(w) ==> var next := Next(w.s.nodes, w.cursor.alarm); next.At? ==> StopAlarm(next.alarm) !in b.acts
  }

  ghost predicate TidyWalk(w: Walk, script: nat -> Behaviour, n: nat) {
    n > 0 ==> TidyWalk(w, script, n - 1) && Tidy(After(w, script, n - 1), script(n - 1))
  }

  // ---- Lists and cursors ----

  lemma {:induction false} RestFacts(nodes: seq<Alarm>, c: Cursor)
    requires Distinct(nodes)
    ensures Distinct(Rest(nodes, c)) && |Rest(nodes, c)| <= |nodes| && forall a | a in Rest(nodes, c) :: a in nodes
    ensures c.At? && c.alarm in nodes ==> Rest(nodes, c) != [] && Rest(nodes, c)[0] == c.alarm
    ensures c.At? && c.alarm !in nodes ==> Rest(nodes, c) == []
  {
    if c.At? && nodes != [] && nodes[0] != c.alarm {
      RestFacts(nodes[1..], c);
    }
  }

  /** The next alarm of a linked one is the next of those still to be visited. */
  lemma {:induction false} NextRest(nodes: seq<Alarm>, a: Alarm)
    requires Distinct(nodes) && a in nodes
    ensures var next := Next(nodes, a);
            && (next.At? ==> next.alarm in nodes && next.alarm != a)
            && Rest(nodes, At(a)) == [a] + Rest(nodes, next) && a !in Rest(nodes, next)
  {
    RestFacts(nodes, At(a));
    var tail := nodes[1..];
    if nodes[0] == a {
      if |nodes| > 1 {
        assert Rest(tail, At(nodes[1])) == tail;
      }
      assert a !in tail;
    } else {
      NextRest(tail, a);
    }
  }

  lemma {:induction false} NextUnlinked(nodes: seq<Alarm>, a: Alarm)
    requires a !in nodes
    ensures Next(nodes, a) == At(a)
  {
    if nodes != [] {
      NextUnlinked(nodes[1..], a);
    }
  }

  lemma {:induction false} WithoutDistinct(nodes: seq<Alarm>, x: Alarm)
    requires Distinct(nodes)
    ensures Distinct(Without(nodes, x))
  {
    if nodes != [] {
      var tail := nodes[1..];
      WithoutDistinct(tail, x);
      assert nodes[0] !in tail;
      assert nodes[0] !in Without(tail, x);
    }
  }

  /** Unlinking an alarm that is not at the cursor. */
  lemma {:induction false} RestWithout(nodes: seq<Alarm>, c: Cursor, x: Alarm)
    requires c != At(x)
    ensures Rest(Without(nodes, x), c) == Without(Rest(nodes, c), x)
  {
    if c.At? && nodes != [] && nodes[0] != c.alarm {
      var tail := nodes[1..];
      RestWithout(tail, c, x);
      assert Without(nodes, x) == (if nodes[0] == x then [] else [nodes[0]]) + Without(tail, x);
      assert nodes[0] != x ==> Without(nodes, x)[1..] == Without(tail, x);
      assert nodes[0] == x ==> Without(nodes, x) == Without(tail, x);
    }
  }

  // ---- Callbacks ----

  ghost predicate Names(acts: seq<Act>, a: Alarm) {
    exists act :: act in acts && act.alarm == a
  }

  /** One act, seen from a cursor whose alarm it does not stop: it adds nothing to the alarms still to be
      visited, takes away at most the one it stops, and leaves the deadlines of the others. */
  lemma EffectRest(s: State, act: Act, c: Cursor)
    requires Ok(s) && (c.At? ==> c.alarm in s.nodes && act != StopAlarm(c.alarm))
    ensures var q := Effect(s, act);
            && Ok(q) && SameTick(s, q) && (c.At? ==> c.alarm in q.nodes)
            && Rest(q.nodes, c) == (if act.StopAlarm? then Without(Rest(s.nodes, c), act.alarm) else Rest(s.nodes, c))
            && (forall y | y in Rest(q.nodes, c) :: y in s.deadlines && q.deadlines[y] == s.deadlines[y])
  {
    RestFacts(s.nodes, c);
    match act {
      case StartAlarm(a, _) =>
        assert ([a] + s.nodes)[1..] == s.nodes;
      case StopAlarm(a) =>
        WithoutDistinct(s.nodes, a);
        RestWithout(s.nodes, c, a);
    }
  }

  lemma {:induction false} EffectsRest(s: State, acts: seq<Act>, c: Cursor)
    requires Ok(s) && (c.At? ==> c.alarm in s.nodes && StopAlarm(c.alarm) !in acts)
    ensures var q := Effects(s, acts);
            && Ok(q) && SameTick(s, q) && (c.At? ==> c.alarm in q.nodes)
            && |Rest(q.nodes, c)| <= |Rest(s.nodes, c)|
            && (forall y | y in Rest(q.nodes, c) :: y in Rest(s.nodes, c) && y in s.deadlines && q.deadlines[y] == s.deadlines[y])
            && (forall y | y in Rest(s.nodes, c) && y !in Rest(q.nodes, c) :: StopAlarm(y) in acts)
  {
    var n := |acts| - 1;
    RestFacts(s.nodes, c);
    if n >= 0 {
      EffectsRest(s, acts[..n], c);
      EffectRest(Effects(s, acts[..n]), acts[n], c);
    }
  }

  /** Any acts keep the list well formed. */
  lemma EffectsOk(s: State, acts: seq<Act>)
    requires Ok(s)
    ensures Ok(Effects(s, acts)) && SameTick(s, Effects(s, acts))
  {
    EffectsRest(s, acts, End);
  }

  /** An alarm that no act names stays as it is. */
  lemma {:induction false} EffectsSpare(s: State, acts: seq<Act>, a: Alarm)
    requires Ok(s) && a in s.deadlines && !Names(acts, a)
    ensures var q := Effects(s, acts);
            && a in q.deadlines && q.deadlines[a] == s.deadlines[a] && (a in q.nodes <==> a in s.nodes)
  {
    var n := |acts| - 1;
    if n >= 0 {
      assert acts[n] in acts && forall act | act in acts[..n] :: act in acts;
      EffectsSpare(s, acts[..n], a);
      EffectsOk(s, acts[..n]);
    }
  }

  // ---- Turns ----

  lemma NextIn(nodes: seq<Alarm>, a: Alarm)
    requires Distinct(nodes)
    ensures var next := Next(nodes, a); next.At? ==> next.alarm == a || next.alarm in nodes
  {
    if a in nodes {
      NextRest(nodes, a);
    } else {
      NextUnlinked(nodes, a);
    }
  }

  lemma SettleOk(s: State, a: Alarm, period: u32)
    requires Ok(s) && a in s.deadlines
    ensures Ok(Settle(s, a, period)) && SameTick(s, Settle(s, a, period))
  {
    WithoutDistinct(s.nodes, a);
  }

  lemma TurnOk(w: Walk, b: Behaviour)
    requires WalkOk(w)
    ensures WalkOk(Turn(w, b)) && SameTick(w.s, Turn(w, b).s)
  {
    if w.cursor.At? {
      var a := w.cursor.alarm;
      NextIn(w.s.nodes, a);
      EffectsOk(Rolled(w.s, a), b.acts);
      SettleOk(Effects(Rolled(w.s, a), b.acts), a, b.period);
    }
  }

  /** A tidy turn at a linked alarm: the walk stays on the list, the alarm is passed, none is added to those
      still to be visited, their deadlines stay, and those that are gone have been stopped. */
  lemma TurnRest(w: Walk, b: Behaviour)
    requires WalkOk(w) && OnList(w) && w.cursor.At? && Tidy(w, b)
    ensures var w', a := Turn(w, b), w.cursor.alarm;
            && OnList(w') && a !in ToVisit(w') && |ToVisit(w')| < |ToVisit(w)|
            && (forall y | y in ToVisit(w') ::
                  y in ToVisit(w) && y in w.s.deadlines && y in w'.s.deadlines && w'.s.deadlines[y] == w.s.deadlines[y])
            && (forall y | y in ToVisit(w) && y != a && y !in ToVisit(w') :: Runs(w) && StopAlarm(y) in b.acts)
  {
    var a := w.cursor.alarm;
    var next := Next(w.s.nodes, a);
    NextRest(w.s.nodes, a);
    RestFacts(w.s.nodes, w.cursor);
    if Runs(w) {
      var q := Effects(Rolled(w.s, a), b.acts);
      EffectsRest(Rolled(w.s, a), b.acts, next);
      if b.period == 0 {
        RestWithout(q.nodes, next, a);
        WithoutAbsent(Rest(q.nodes, next), a);
      }
    }
  }

  /** A turn at another alarm, whose callback does not name x, leaves x as it is. */
  lemma TurnSpares(w: Walk, b: Behaviour, x: Alarm)
    requires WalkOk(w) && x in w.s.deadlines && w.cursor != At(x) && (Runs(w) ==> !Names(b.acts, x))
    ensures var s' := Turn(w, b).s;
            x in s'.deadlines && s'.deadlines[x] == w.s.deadlines[x] && (x in s'.nodes <==> x in w.s.nodes)
  {
    if Runs(w) {
      var r := Rolled(w.s, w.cursor.alarm);
      EffectsOk(r, b.acts);
      EffectsSpare(r, b.acts, x);
    }
  }

  /** What becomes of a linked alarm that is visited with deadline d and not named by its callback. */
  ghost predicate Settled(s: State, a: Alarm, d: Deadline, period: u32) {
    var rolled := Roll(d, s.counter);
    && a in s.deadlines
    && (a in s.nodes <==> !Expired(rolled, s.counter) || period != 0)
    && s.deadlines[a] == if Expired(rolled, s.counter) && period != 0 then Rearm(rolled, s.counter, period) else rolled
  }

  lemma TurnSettles(w: Walk, b: Behaviour)
    requires WalkOk(w) && w.cursor.At? && OnList(w) && (Runs(w) ==> !Names(b.acts, w.cursor.alarm))
    ensures Settled(Turn(w, b).s, w.cursor.alarm, w.s.deadlines[w.cursor.alarm], b.period)
  {
    if Runs(w) {
      var r := Rolled(w.s, w.cursor.alarm);
      EffectsOk(r, b.acts);
      EffectsSpare(r, b.acts, w.cursor.alarm);
    }
  }

  // ---- Walks ----

  lemma {:induction false} AfterOk(w: Walk, script: nat -> Behaviour, n: nat)
    requires WalkOk(w)
    ensures WalkOk(After(w, script, n)) && SameTick(w.s, After(w, script, n).s)
  {
    if n > 0 {
      AfterOk(w, script, n - 1);
      TurnOk(After(w, script, n - 1), script(n - 1));
    }
  }

  /** A walk that has ended stays as it is. */
  lemma {:induction false} AfterEnd(w: Walk, script: nat -> Behaviour, m: nat, n: nat)
    requires After(w, script, m).cursor.End? && m <= n
    ensures After(w, script, n) == After(w, script, m)
  {
    if m < n {
      AfterEnd(w, script, m, n - 1);
    }
  }

  lemma {:induction false} WalkProgress(w: Walk, script: nat -> Behaviour, n: nat)
    requires WalkOk(w) && OnList(w) && TidyWalk(w, script, n)
    ensures OnList(After(w, script, n))
    ensures After(w, script, n).cursor.End? || |ToVisit(After(w, script, n))| + n <= |ToVisit(w)|
  {
    if n > 0 {
      WalkProgress(w, script, n - 1);
      var v := After(w, script, n - 1);
      AfterOk(w, script, n - 1);
      if v.cursor.At? {
        TurnRest(v, script(n - 1));
      }
    }
  }

  /** A tidy walk ends: there are no more turns than alarms to visit. */
  lemma WalkEnds(w: Walk, script: nat -> Behaviour)
    requires WalkOk(w) && OnList(w) && TidyWalk(w, script, |ToVisit(w)|)
    ensures After(w, script, |ToVisit(w)|).cursor.End?
  {
    var n := |ToVisit(w)|;
    WalkProgress(w, script, n);
    AfterOk(w, script, n);
    RestFacts(After(w, script, n).s.nodes, After(w, script, n).cursor);
  }

  /** The turns among the first n at which an alarm is visited. */
  ghost function Visits(w: Walk, script: nat -> Behaviour, n: nat, a: Alarm): seq<nat> {
    if n == 0 then []
    else Visits(w, script, n - 1, a) + (if After(w, script, n - 1).cursor == At(a) then [n - 1] else [])
  }

  /** Does a callback that runs in the first n turns stop the alarm? */
  ghost predicate IsStopped(w: Walk, script: nat -> Behaviour, n: nat, a: Alarm) {
    n > 0 && (IsStopped(w, script, n - 1, a)
              || (Runs(After(w, script, n - 1)) && StopAlarm(a) in script(n - 1).acts))
  }

  /** Do the callbacks that run in the first n turns leave the alarm alone? */
  ghost predicate Spares(w: Walk, script: nat -> Behaviour, n: nat, a: Alarm) {
    n > 0 ==>
      && Spares(w, script, n - 1, a)
      && (Runs(After(w, script, n - 1)) ==> !Names(script(n - 1).acts, a))
  }

  /** In a tidy walk every alarm to be visited is visited exactly once, with the deadline it had at the
      start, unless a callback stops it first; and until then it is still to be visited. */
  lemma {:induction false} VisitedOnce(w: Walk, script: nat -> Behaviour, n: nat, a: Alarm)
    requires WalkOk(w) && OnList(w) && TidyWalk(w, script, n) && a in ToVisit(w)
    ensures a in w.s.deadlines
    ensures var v, u := Visits(w, script, n, a), After(w, script, n);
            && (a in ToVisit(u) ==> v == [] && a in u.s.deadlines && u.s.deadlines[a] == w.s.deadlines[a])
            && (a !in ToVisit(u) ==> |v| == 1 || (v == [] && IsStopped(w, script, n, a)))
    ensures forall k | k in Visits(w, script, n, a) ::
              && k < n && After(w, script, k).cursor == At(a) && a in After(w, script, k).s.deadlines
              && After(w, script, k).s.deadlines[a] == w.s.deadlines[a]
  {
    RestFacts(w.s.nodes, w.cursor);
    if n > 0 {
      VisitedOnce(w, script, n - 1, a);
      WalkProgress(w, script, n - 1);
      AfterOk(w, script, n - 1);
      var u := After(w, script, n - 1);
      RestFacts(u.s.nodes, u.cursor);
      if u.cursor.At? {
        TurnRest(u, script(n - 1));
      }
    }
  }

  /** If no callback names it, it is settled once it has been visited, and untouched until then. */
  lemma {:induction false} SettledOnce(w: Walk, script: nat -> Behaviour, n: nat, a: Alarm)
    requires WalkOk(w) && OnList(w) && TidyWalk(w, script, n) && a in ToVisit(w) && Spares(w, script, n, a)
    ensures a in w.s.deadlines
    ensures var v, s' := Visits(w, script, n, a), After(w, script, n).s;
            if v == [] then a in s'.nodes && a in s'.deadlines && s'.deadlines[a] == w.s.deadlines[a]
            else Settled(s', a, w.s.deadlines[a], script(v[0]).period)
  {
    RestFacts(w.s.nodes, w.cursor);
    if n > 0 {
      SettledOnce(w, script, n - 1, a);
      VisitedOnce(w, script, n - 1, a);
      VisitedOnce(w, script, n, a);
      WalkProgress(w, script, n - 1);
      AfterOk(w, script, n - 1);
      var u := After(w, script, n - 1);
      if u.cursor == At(a) {
        TurnSettles(u, script(n - 1));
      } else {
        TurnSpares(u, script(n - 1), a);
        TurnOk(u, script(n - 1));
      }
    }
  }

  /** An alarm that is not linked, and not named by a callback, is not visited and stays so. */
  lemma {:induction false} NeverVisited(w: Walk, script: nat -> Behaviour, n: nat, a: Alarm)
    requires WalkOk(w) && OnList(w) && TidyWalk(w, script, n) && Spares(w, script, n, a)
    requires a !in w.s.nodes && a in w.s.deadlines
    ensures Visits(w, script, n, a) == [] && a !in After(w, script, n).s.nodes
    ensures a in After(w, script, n).s.deadlines
  {
    if n > 0 {
      NeverVisited(w, script, n - 1, a);
      WalkProgress(w, script, n - 1);
      AfterOk(w, script, n - 1);
      TurnSpares(After(w, script, n - 1), script(n - 1), a);
    }
  }
}
