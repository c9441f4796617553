/** The interrupt dispatch loops: sample the pending interrupts, call the handler of the lowest one,
    sample again, until none is pending. */
module IrqDispatch {

  const NIRQ: nat := 32

  ghost predicate Irqs(s: set<nat>) {
    forall irq | irq in s :: irq < NIRQ
  }

  ghost predicate AllIrqs(arrivals: seq<set<nat>>) {
    forall k :: 0 <= k < |arrivals| ==> Irqs(arrivals[k])
  }

  /** The lowest member of s, looked for from i on. */
  ghost function Least(s: set<nat>, i: nat): (r: nat)
    requires Irqs(s) && exists irq :: irq in s && i <= irq
    ensures r in s && i <= r && forall irq :: irq in s && i <= irq ==> r <= irq
    decreases NIRQ - i
  {
    if i in s then i else Least(s, i + 1)
  }

  /** The order of service: always the lowest of the last sample.  `arrivals` are the interrupts raised
      while successive handlers run. */
  ghost function Order(pending: set<nat>, arrivals: seq<set<nat>>): seq<nat>
    requires Irqs(pending) && AllIrqs(arrivals)
    decreases |arrivals|, |pending|
  {
    if pending == {} then []
    else
      NonEmpty(pending);
      var irq := Least(pending, 0);
      if arrivals == [] then [irq] + Order(pending - {irq}, [])
      else [irq] + Order(pending - {irq} + arrivals[0], arrivals[1..])
  }

  lemma NonEmpty(s: set<nat>)
    requires s != {}
    ensures exists irq :: irq in s && 0 <= irq
  {
    var irq :| irq in s;
  }

  /** Whatever is raised meanwhile, everything pending at entry is served, and so is everything raised
      while a handler runs; nothing else is. */
  lemma {:induction false} AllServed(pending: set<nat>, arrivals: seq<set<nat>>, irq: nat)
    requires Irqs(pending) && AllIrqs(arrivals)
    ensures var s := Order(pending, arrivals);
            irq in s <==> irq in pending || exists k :: 0 <= k < |arrivals| && k < |s| && irq in arrivals[k]
    decreases |arrivals|, |pending|
  {
    if pending != {} {
      NonEmpty(pending);
      var first := Least(pending, 0);
      var s := Order(pending, arrivals);
      if arrivals == [] {
        AllServed(pending - {first}, [], irq);
        assert irq in s <==> irq == first || irq in Order(pending - {first}, []);
      } else {
        var after, later := pending - {first} + arrivals[0], arrivals[1..];
        var t := Order(after, later);
        AllServed(after, later, irq);
        assert irq in s <==> irq == first || irq in t;
        if k :| 0 <= k < |later| && k < |t| && irq in later[k] {
          assert irq in arrivals[k + 1];
        }
        if k :| 0 < k < |arrivals| && k < |s| && irq in arrivals[k] {
          assert irq in later[k - 1];
        }
      }
    }
  }

  ghost predicate IsLowest(irq: nat, s: set<nat>) {
    irq in s && forall other | other in s :: irq <= other
  }

  /** The interrupts pending after a handler has run: it has cleared its own, and what was raised while it
      ran is pending. */
  ghost function NextSample(pending: set<nat>, arrivals: seq<set<nat>>, irq: nat): set<nat> {
    pending - {irq} + (if arrivals == [] then {} else arrivals[0])
  }

  /** Every handler called is that of the lowest interrupt pending then, and in the end none is pending. */
  ghost predicate LowestFirst(pending: set<nat>, arrivals: seq<set<nat>>, calls: seq<nat>)
    decreases |calls|
  {
    if calls == [] then pending == {}
    else
      && IsLowest(calls[0], pending)
      && LowestFirst(NextSample(pending, arrivals, calls[0]), if arrivals == [] then [] else arrivals[1..], calls[1..])
  }

  /** Whatever is raised meanwhile, the order of service is by priority: each time the lowest interrupt of the
      last sample, until a sample is empty. */
  lemma {:induction false} ByPriority(pending: set<nat>, arrivals: seq<set<nat>>)
    requires Irqs(pending) && AllIrqs(arrivals)
    ensures LowestFirst(pending, arrivals, Order(pending, arrivals))
    decreases |arrivals|, |pending|
  {
    if pending != {} {
      NonEmpty(pending);
      var first := Least(pending, 0);
      var after, rest := NextSample(pending, arrivals, first), if arrivals == [] then [] else arrivals[1..];
      if arrivals == [] {
        assert after == pending - {first};
      }
      ByPriority(after, rest);
      assert ([first] + Order(after, rest))[1..] == Order(after, rest);
    }
  }

  ghost predicate Ascending(s: seq<nat>) {
    forall i, j :: 0 <= i < j < |s| ==> s[i] < s[j]
  }

  lemma AscendingCons(x: nat, s: seq<nat>)
    requires Ascending(s) && forall y | y in s :: x < y
    ensures Ascending([x] + s)
  {
    var t := [x] + s;
    forall i, j | 0 <= i < j < |t|
      ensures t[i] < t[j]
    {
      assert t[j] == s[j - 1] && s[j - 1] in s;
      assert t[i] == if i == 0 then x else s[i - 1];
    }
  }

  /** Without arrivals, what is served of some interrupts lies above whatever is below all of them. */
  lemma QuietAbove(pending: set<nat>, x: nat)
    requires Irqs(pending) && forall y | y in pending :: x < y
    ensures forall y | y in Order(pending, []) :: x < y
  {
    forall y | y in Order(pending, [])
      ensures x < y
    {
      AllServed(pending, [], y);
    }
  }

  /** If nothing is raised meanwhile, the interrupts are served in strictly ascending order, so with
      `AllServed` each pending one is served exactly once. */
  lemma {:induction false} QuietOrder(pending: set<nat>)
    requires Irqs(pending)
    ensures Ascending(Order(pending, []))
    decreases |pending|
  {
    if pending != {} {
      NonEmpty(pending);
      var first := Least(pending, 0);
      var rest := pending - {first};
      QuietOrder(rest);
      QuietAbove(rest, first);
      AscendingCons(first, Order(rest, []));
    }
  }

  /** The two loops of the dispatcher, entered with interrupts pending.  Each handler clears its own
      interrupt; `arrivals` are the interrupts raised while successive handlers run. */
  method Serve(pending0: set<nat>, arrivals: seq<set<nat>>) returns (calls: seq<nat>)
    requires pending0 != {} && Irqs(pending0) && AllIrqs(arrivals)
    ensures calls == Order(pending0, arrivals)
  {
    calls := [];
    var pending, coming := pending0, arrivals;
    var active := pending;
    while active != {}
      invariant active == pending && Irqs(pending) && AllIrqs(coming)
      invariant Order(pending0, arrivals) == calls + Order(pending, coming)
      decreases |coming|, |pending|
    {
      NonEmpty(active);
      var i := 0;
      while i !in active
        invariant exists irq :: irq in active && i <= irq
        invariant Least(active, 0) == Least(active, i)
        decreases NIRQ - i
      {
        i := i + 1;
      }
      calls := calls + [i];
      pending := pending - {i};
      if coming != [] {
        pending, coming := pending + coming[0], coming[1..];
      }
      active := pending;
    }
  }

  /** The dispatcher: always the lowest interrupt of the last sample, until none is pending. */
  method Dispatch(pending: set<nat>, arrivals: seq<set<nat>>) returns (calls: seq<nat>)
    requires pending != {} && Irqs(pending) && AllIrqs(arrivals)
    ensures calls == Order(pending, arrivals) && LowestFirst(pending, arrivals, calls)
  {
    ByPriority(pending, arrivals);
    calls := Serve(pending, arrivals);
  }
}
