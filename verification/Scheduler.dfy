/**
 The round-robin scheduler of kernel/task/scheduler.c: a table of 64 slots (0 dead, 1 ready, 2 running),
 the current slot, and a cyclic scan for the next ready one.  Slots never go back to dead.
 */
module Scheduler {

  const MAX_TASKS: nat := 64
  const DEAD: nat := 0
  const READY: nat := 1
  const RUNNING: nat := 2

  datatype Table = Table(state: seq<nat>, id: seq<int>, current: int, nextId: int) {
    /** Nothing indexes outside the table; current is -1 until some task has been made current. */
    predicate Bounded() {
      |state| == MAX_TASKS && |id| == MAX_TASKS && -1 <= current < MAX_TASKS
    }

    /** Exactly the current task is running. */
    predicate Valid() {
      && Bounded() && 0 <= current && state[current] == RUNNING
      && forall i :: 0 <= i < MAX_TASKS ==> state[i] <= RUNNING && (state[i] == RUNNING ==> i == current)
    }
  }

  predicate IsReady(s: Table, t: int)
    requires s.Bounded()
  {
    0 <= t < MAX_TASKS && s.state[t] == READY
  }

  predicate IsLive(s: Table, t: int)
    requires s.Bounded()
  {
    0 <= t < MAX_TASKS && s.state[t] != DEAD
  }

  // ---------------------------------------------------------------- the two operations on values

  /** The scan: at most steps slots after cur, stopping at a ready one. */
  function Pick(state: seq<nat>, cur: int, steps: nat): (n: int)
    requires |state| == MAX_TASKS && -1 <= cur < MAX_TASKS
    ensures -1 <= n < MAX_TASKS && (steps > 0 ==> 0 <= n)
    decreases steps
  {
    if steps == 0 then cur else
    var n := (cur + 1) % MAX_TASKS;
    if state[n] == READY then n else Pick(state, n, steps - 1)
  }

  /** The code would store through tasks[-1]. */
  predicate SwitchFaults(s: Table)
    requires s.Bounded()
  {
    s.current == -1 && s.state[Pick(s.state, -1, MAX_TASKS)] == READY
  }

  /** scheduler_switch */
  function Switch(s: Table): Table
    requires s.Bounded() && !SwitchFaults(s)
  {
    var n := Pick(s.state, s.current, MAX_TASKS);
    if n == s.current || s.state[n] != READY then s
    else s.(state := s.state[s.current := READY][n := RUNNING], current := n)
  }

  /** The first dead slot from i on, or MAX_TASKS. */
  function FirstDead(state: seq<nat>, i: nat): (k: nat)
    requires |state| == MAX_TASKS && i <= MAX_TASKS
    ensures i <= k <= MAX_TASKS && (k < MAX_TASKS ==> state[k] == DEAD)
    ensures forall j :: i <= j < k ==> state[j] != DEAD
    decreases MAX_TASKS - i
  {
    if i == MAX_TASKS || state[i] == DEAD then i else FirstDead(state, i + 1)
  }

  /** scheduler_create_task: the new table and the returned id, -1 when every slot is taken. */
  function Create(s: Table): (Table, int)
    requires s.Bounded()
  {
    var k := FirstDead(s.state, 0);
    if k == MAX_TASKS then (s, -1)
    else (s.(state := s.state[k := READY], id := s.id[k := s.nextId], nextId := s.nextId + 1), s.nextId)
  }

  /**
   A creation fails, and changes nothing, exactly when every slot is live.  Otherwise the lowest dead slot
   becomes ready under the next number, which is returned; nothing else changes.
   */
  lemma CreationTakesLowestSlot(s: Table)
    requires s.Bounded()
    ensures var (r, id) := Create(s);
            && (r.state == s.state <==> forall i :: 0 <= i < 64 ==> s.state[i] != 0)
            && (r.state == s.state ==> r == s && id == -1)
            && (r.state != s.state ==>
                  exists k :: 0 <= k < 64 && s.state[k] == 0 && (forall i :: 0 <= i < k ==> s.state[i] != 0)
                              && r.state == s.state[k := 1] && r.id == s.id[k := id]
                              && id == s.nextId && r.nextId == id + 1 && r.current == s.current)
  {
    var k := FirstDead(s.state, 0);
    assert k < MAX_TASKS ==> Create(s).0.state[k] == READY;
  }

  /** Once ids have been handed out in order, -1 is returned for a full table only, and other ids are fresh. */
  lemma CreatedIdIsFresh(s: Table)
    requires s.Bounded() && UniqueIds(s) && s.nextId >= 1
    ensures var (r, id) := Create(s);
            && r.Bounded() && UniqueIds(r) && r.nextId >= 1
            && (id == -1 <==> forall i :: 0 <= i < 64 ==> s.state[i] != 0)
            && (id != -1 ==>
                  && (forall i :: IsLive(s, i) ==> s.id[i] != id)
                  && exists k :: 0 <= k < 64 && !IsLive(s, k) && r.state[k] == 1 && r.id[k] == id)
  {
    var k := FirstDead(s.state, 0);
    assert k < MAX_TASKS ==> !IsLive(s, k) && Create(s).0.id[k] == Create(s).1;
  }

  /** After boot the first creation returns number 1 and fills slot 0. */
  lemma FirstTaskIsOne()
    ensures var (r, id) := Create(Table(seq(64, _ => 0), seq(64, _ => 0), -1, 1));
            id == 1 && r.state[0] == 1 && r.id[0] == 1
  {
  }

  // ---------------------------------------------------------------- the cyclic scan

  /** The slot d places after cur. */
  function At(cur: int, d: int): (t: int)
    ensures 0 <= t < MAX_TASKS
  {
    (cur + d) % MAX_TASKS
  }

  /** How many places after cur slot t comes. */
  function Distance(cur: int, t: int): int {
    (t - cur) % MAX_TASKS
  }

  lemma AtDistance(cur: int, t: int)
    requires 0 <= cur < MAX_TASKS && 0 <= t < MAX_TASKS
    ensures 0 <= Distance(cur, t) < MAX_TASKS && At(cur, Distance(cur, t)) == t
    ensures Distance(cur, t) == 0 <==> t == cur
  {
    if cur <= t {
      assert Distance(cur, t) == t - cur;
    } else {
      assert Distance(cur, t) == t - cur + MAX_TASKS;
    }
  }

  lemma DistanceAt(cur: int, d: int)
    requires 0 <= cur < MAX_TASKS && 0 <= d < MAX_TASKS
    ensures Distance(cur, At(cur, d)) == d
  {
  }

  lemma DistanceShrinks(cur: int, n: int, t: int)
    requires 0 <= cur < MAX_TASKS && 0 <= n < MAX_TASKS && 0 <= t < MAX_TASKS
    requires n != cur && Distance(cur, n) <= Distance(cur, t)
    ensures Distance(n, t) < Distance(cur, t)
  {
  }

  lemma AtStep(cur: int, d: int)
    ensures At(At(cur, 1), d - 1) == At(cur, d)
  {
  }

  lemma {:induction false} PickStopsAt(state: seq<nat>, cur: int, steps: nat, d: nat)
    requires |state| == MAX_TASKS && -1 <= cur < MAX_TASKS && 1 <= d <= steps
    requires forall i :: 1 <= i < d ==> state[At(cur, i)] != READY
    requires state[At(cur, d)] == READY
    ensures Pick(state, cur, steps) == At(cur, d)
    decreases d
  {
    if d > 1 {
      var n := At(cur, 1);
      forall i | 1 <= i < d - 1
        ensures state[At(n, i)] != READY
      {
        AtStep(cur, i + 1);
      }
      AtStep(cur, d);
      PickStopsAt(state, n, steps - 1, d - 1);
    }
  }

  lemma {:induction false} PickFindsNothing(state: seq<nat>, cur: int, steps: nat)
    requires |state| == MAX_TASKS && -1 <= cur < MAX_TASKS && steps > 0
    requires forall i :: 1 <= i <= steps ==> state[At(cur, i)] != READY
    ensures Pick(state, cur, steps) == At(cur, steps)
    decreases steps
  {
    if steps > 1 {
      var n := At(cur, 1);
      forall i | 1 <= i <= steps - 1
        ensures state[At(n, i)] != READY
      {
        AtStep(cur, i + 1);
      }
      AtStep(cur, steps);
      PickFindsNothing(state, n, steps - 1);
    }
  }

  lemma FirstReadyDistance(state: seq<nat>, cur: int, hi: nat) returns (d: nat)
    requires |state| == MAX_TASKS && hi > 0 && state[At(cur, hi)] == READY
    ensures 1 <= d <= hi && state[At(cur, d)] == READY
    ensures forall i :: 1 <= i < d ==> state[At(cur, i)] != READY
  {
    d := 1;
    while state[At(cur, d)] != READY
      invariant 1 <= d <= hi
      invariant forall i :: 1 <= i < d ==> state[At(cur, i)] != READY
      decreases hi - d
    {
      d := d + 1;
    }
  }

  /** A switch goes to the cyclically nearest ready task, and does nothing exactly when there is none. */
  lemma SwitchGoesToNearest(s: Table)
    requires s.Valid()
    ensures Switch(s).Valid()
    ensures (forall t :: !IsReady(s, t)) <==> Switch(s) == s
    ensures Switch(s) != s ==>
              var n := Switch(s).current;
              && IsReady(s, n) && (forall t :: IsReady(s, t) ==> Distance(s.current, n) <= Distance(s.current, t))
              && Switch(s) == s.(state := s.state[s.current := READY][n := RUNNING], current := n)
  {
    hide At, Distance, Pick;
    var cur := s.current;
    if t :| IsReady(s, t) {
      AtDistance(cur, t);
      var d := FirstReadyDistance(s.state, cur, Distance(cur, t));
      PickStopsAt(s.state, cur, MAX_TASKS, d);
      DistanceAt(cur, d);
      assert Switch(s).current == At(cur, d) != cur;
      forall u | IsReady(s, u)
        ensures d <= Distance(cur, u)
      {
        AtDistance(cur, u);
      }
    } else {
      assert !IsReady(s, Pick(s.state, cur, MAX_TASKS));
    }
  }

  /** The first switch after scheduler_init stores outside the table exactly when some task is ready. */
  lemma FirstSwitchFaultsIff(s: Table)
    requires s.Bounded() && s.current == -1
    ensures SwitchFaults(s) <==> exists t :: IsReady(s, t)
  {
    assert SwitchFaults(s) ==> IsReady(s, Pick(s.state, -1, MAX_TASKS));
    if t :| IsReady(s, t) {
      assert At(-1, t + 1) == t;
      var d := FirstReadyDistance(s.state, -1, t + 1);
      PickStopsAt(s.state, -1, MAX_TASKS, d);
    }
  }

  /** So it does after scheduler_init and the creation of a single task. */
  lemma OneTaskThenSwitchFaults(id: int)
    ensures var s := Create(Table(seq(MAX_TASKS, _ => DEAD), seq(MAX_TASKS, _ => 0), -1, id)).0;
            s.Bounded() && SwitchFaults(s)
  {
    var s := Create(Table(seq(MAX_TASKS, _ => DEAD), seq(MAX_TASKS, _ => 0), -1, id)).0;
    assert IsReady(s, 0);
    FirstSwitchFaultsIff(s);
  }

  // ---------------------------------------------------------------- bounded waiting

  datatype Event = Timer | Spawn

  function Step(s: Table, e: Event): (r: Table)
    requires s.Valid()
    ensures r.Valid()
  {
    match e
    case Timer => SwitchGoesToNearest(s); Switch(s)
    case Spawn => Create(s).0
  }

  function Run(s: Table, es: seq<Event>): (r: Table)
    requires s.Valid()
    ensures r.Valid()
    decreases |es|
  {
    if es == [] then s else Run(Step(s, es[0]), es[1..])
  }

  function Timers(es: seq<Event>): nat {
    if es == [] then 0 else (if es[0].Timer? then 1 else 0) + Timers(es[1..])
  }

  /** One event brings a waiting task nearer, or runs it, or leaves its distance alone. */
  lemma EventBringsNearer(s: Table, e: Event, t: int)
    requires s.Valid() && IsReady(s, t)
    ensures var r := Step(s, e);
            if e.Spawn? then r.current == s.current && IsReady(r, t)
            else r.current == t || (IsReady(r, t) && Distance(r.current, t) < Distance(s.current, t))
  {
    hide At, Distance, Pick, Switch;
    if e.Timer? {
      SwitchGoesToNearest(s);
      assert IsReady(s, t);
      DistanceShrinks(s.current, Switch(s).current, t);
    }
  }

  /**
   Bounded waiting, in every run of switches with any creations in between: a ready task is running
   after at most as many switches as it is slots behind the current one, hence after at most 63.
   */
  lemma {:induction false} BoundedWaiting(s: Table, es: seq<Event>, t: int) returns (k: nat)
    requires s.Valid() && IsReady(s, t) && Timers(es) >= Distance(s.current, t)
    ensures Distance(s.current, t) <= MAX_TASKS - 1
    ensures k <= |es| && Timers(es[..k]) <= Distance(s.current, t)
    ensures Run(s, es[..k]).current == t && Run(s, es[..k]).state[t] == RUNNING
    decreases |es|
  {
    hide Pick, At, Distance, Step;
    AtDistance(s.current, t);
    EventBringsNearer(s, es[0], t);
    var r := Step(s, es[0]);
    if r.current == t {
      k := 1;
      assert es[..1] == [es[0]];
      assert Run(r, []) == r;
    } else {
      var j := BoundedWaiting(r, es[1..], t);
      k := j + 1;
      assert es[..k][1..] == es[1..][..j];
    }
  }

  // ---------------------------------------------------------------- full rotation

  function Switches(s: Table, k: nat): (r: Table)
    requires s.Valid()
    ensures r.Valid()
    decreases k
  {
    if k == 0 then s else Step(Switches(s, k - 1), Timer)
  }

  ghost function LiveTasks(s: Table): set<int>
    requires s.Bounded()
  {
    set t | 0 <= t < MAX_TASKS && IsLive(s, t)
  }

  /** The number of live tasks among the d slots after the current one. */
  function LiveWithin(s: Table, d: nat): nat
    requires s.Valid()
  {
    if d == 0 then 0 else LiveWithin(s, d - 1) + if IsLive(s, At(s.current, d)) then 1 else 0
  }

  lemma {:induction false} LiveWithinGrows(s: Table, d: nat, e: nat)
    requires s.Valid() && d <= e
    ensures LiveWithin(s, d) <= LiveWithin(s, e)
    ensures d < e && IsLive(s, At(s.current, e)) ==> LiveWithin(s, d) < LiveWithin(s, e)
    decreases e
  {
    if d < e {
      LiveWithinGrows(s, d, e - 1);
    }
  }

  ghost function LiveWithinSet(s: Table, d: nat): set<int>
    requires s.Valid() && d <= MAX_TASKS
  {
    set t | 0 <= t < MAX_TASKS && IsLive(s, t) && WithinDistance(s.current, t, d)
  }

  /** Slot t is one of the d slots after cur, where cur itself comes last. */
  predicate WithinDistance(cur: int, t: int, d: nat) {
    1 <= (if t == cur then MAX_TASKS else Distance(cur, t)) <= d
  }

  lemma NoneWithinZero(s: Table)
    requires s.Valid()
    ensures LiveWithinSet(s, 0) == {}
  {
  }

  lemma WithinGrows(cur: int, d: nat, u: int)
    requires 0 <= cur < MAX_TASKS && 0 <= u < MAX_TASKS && 1 <= d <= MAX_TASKS
    ensures WithinDistance(cur, u, d) <==> WithinDistance(cur, u, d - 1) || u == At(cur, d)
    ensures u == At(cur, d) ==> !WithinDistance(cur, u, d - 1)
  {
    AtDistance(cur, u);
    if d < MAX_TASKS {
      DistanceAt(cur, d);
    } else {
      AtFullCircle(cur);
    }
  }

  lemma {:induction false} LiveWithinCounts(s: Table, d: nat)
    requires s.Valid() && d <= MAX_TASKS
    ensures LiveWithin(s, d) == |LiveWithinSet(s, d)|
    decreases d
  {
    hide At, WithinDistance;
    if d == 0 {
      NoneWithinZero(s);
    } else {
      LiveWithinCounts(s, d - 1);
      var t := At(s.current, d);
      forall u | 0 <= u < MAX_TASKS
        ensures WithinDistance(s.current, u, d) <==> WithinDistance(s.current, u, d - 1) || u == t
        ensures !WithinDistance(s.current, t, d - 1)
      {
        WithinGrows(s.current, d, u);
        WithinGrows(s.current, d, t);
      }
      if IsLive(s, t) {
        assert LiveWithinSet(s, d) == LiveWithinSet(s, d - 1) + {t};
      } else {
        assert LiveWithinSet(s, d) == LiveWithinSet(s, d - 1);
      }
    }
  }

  lemma AllLiveWithin(s: Table)
    requires s.Valid()
    ensures LiveWithin(s, MAX_TASKS) == |LiveTasks(s)|
  {
    LiveWithinCounts(s, MAX_TASKS);
    forall t | 0 <= t < MAX_TASKS
      ensures WithinDistance(s.current, t, MAX_TASKS)
    {
      AtDistance(s.current, t);
    }
    assert LiveWithinSet(s, MAX_TASKS) == LiveTasks(s);
  }

  /** The table after the running mark has moved from the current slot to the one d places on. */
  function Moved(s: Table, d: nat): Table
    requires s.Valid()
  {
    var n := At(s.current, d);
    s.(state := s.state[s.current := READY][n := RUNNING], current := n)
  }

  lemma SmallestLiveAfter(s: Table, d: nat) returns (e: nat)
    requires s.Valid() && d < MAX_TASKS
    ensures d < e <= MAX_TASKS && IsLive(s, At(s.current, e))
    ensures forall i :: d < i < e ==> !IsLive(s, At(s.current, i))
  {
    assert At(s.current, MAX_TASKS) == s.current;
    e := d + 1;
    while !IsLive(s, At(s.current, e))
      invariant d < e <= MAX_TASKS
      invariant forall i :: d < i < e ==> !IsLive(s, At(s.current, i))
      decreases MAX_TASKS - e
    {
      e := e + 1;
    }
  }

  /** From the slot d places on, a switch goes to the next live slot. */
  lemma SwitchMovesOn(s: Table, d: nat, e: nat)
    requires s.Valid() && d < e <= MAX_TASKS && IsLive(s, At(s.current, d)) && IsLive(s, At(s.current, e))
    requires forall i :: d < i < e ==> !IsLive(s, At(s.current, i))
    ensures Moved(s, d).Valid() && Step(Moved(s, d), Timer) == Moved(s, e)
  {
    hide At, Pick;
    var m := Moved(s, d);
    var n := e - d;
    AtAdds(s.current, d, n);
    forall i | 1 <= i < n
      ensures m.state[At(m.current, i)] != READY
    {
      AtAdds(s.current, d, i);
      AtIsInjective(s.current, d + i);
    }
    if n == MAX_TASKS {
      AtFullCircle(s.current);
      NoOtherLive(m);
    } else {
      AtIsInjective(m.current, n);
      PickStopsAt(m.state, m.current, MAX_TASKS, n);
      assert Switch(m).state == Moved(s, e).state;
    }
  }

  lemma AtAdds(cur: int, d: nat, i: nat)
    ensures At(At(cur, d), i) == At(cur, d + i)
  {
  }

  lemma AtFullCircle(cur: int)
    requires 0 <= cur < MAX_TASKS
    ensures At(cur, 0) == cur && At(cur, MAX_TASKS) == cur
  {
  }

  lemma NoOtherLive(m: Table)
    requires m.Valid() && forall i :: 1 <= i < MAX_TASKS ==> m.state[At(m.current, i)] != READY
    ensures Switch(m) == m
  {
    hide Pick;
    AtFullCircle(m.current);
    PickFindsNothing(m.state, m.current, MAX_TASKS);
  }

  lemma AtIsInjective(cur: int, d: nat)
    requires 0 <= cur < MAX_TASKS && 0 < d < MAX_TASKS
    ensures At(cur, d) != cur
  {
  }

  /** After k switches the running mark sits on the k-th live slot after the start. */
  lemma {:induction false} KthSwitch(s: Table, k: nat) returns (d: nat)
    requires s.Valid() && k <= |LiveTasks(s)|
    ensures d <= MAX_TASKS && LiveWithin(s, d) == k && (k > 0 ==> d > 0)
    ensures IsLive(s, At(s.current, d)) && Switches(s, k) == Moved(s, d)
    decreases k
  {
    hide At, Pick, Switch, LiveTasks, Step;
    AtFullCircle(s.current);
    if k == 0 {
      d := 0;
    } else {
      var c := KthSwitch(s, k - 1);
      AllLiveWithin(s);
      d := SmallestLiveAfter(s, c);
      SwitchMovesOn(s, c, d);
      NoneBetween(s, c, d);
    }
  }

  lemma {:induction false} NoneBetween(s: Table, c: nat, d: nat)
    requires s.Valid() && c < d && forall i :: c < i < d ==> !IsLive(s, At(s.current, i))
    ensures LiveWithin(s, d - 1) == LiveWithin(s, c)
    decreases d
  {
    if c < d - 1 {
      NoneBetween(s, c, d - 1);
    }
  }

  /**
   Full rotation: with n live tasks, n switches in a row return to the starting table and current
   task, and make each live task current exactly once.
   */
  lemma FullRotation(s: Table, t: int)
    requires s.Valid() && IsLive(s, t)
    ensures Switches(s, |LiveTasks(s)|) == s
    ensures exists k :: 1 <= k <= |LiveTasks(s)| && Switches(s, k).current == t
                        && forall j :: 1 <= j <= |LiveTasks(s)| && Switches(s, j).current == t ==> j == k
  {
    var n := |LiveTasks(s)|;
    AllLiveWithin(s);
    assert At(s.current, MAX_TASKS) == s.current;
    var last := KthSwitch(s, n);
    if last < MAX_TASKS {
      LiveWithinGrows(s, last, MAX_TASKS);
    }
    assert Moved(s, MAX_TASKS).state == s.state;

    AtDistance(s.current, t);
    var e := if t == s.current then MAX_TASKS else Distance(s.current, t);
    var k := LiveWithin(s, e);
    LiveWithinGrows(s, 0, e);
    LiveWithinGrows(s, e, MAX_TASKS);
    forall j: nat | 1 <= j <= n
      ensures Switches(s, j).current == t <==> j == k
    {
      var d := KthSwitch(s, j);
      if d < e {
        LiveWithinGrows(s, d, e);
      } else if e < d {
        LiveWithinGrows(s, e, d);
      }
      SameSlotSameDistance(s.current, d, e);
    }
    assert Switches(s, k).current == t;
  }

  lemma SameSlotSameDistance(cur: int, d: nat, e: nat)
    requires 0 <= cur < MAX_TASKS && 1 <= d <= MAX_TASKS && 1 <= e <= MAX_TASKS
    ensures At(cur, d) == At(cur, e) <==> d == e
  {
  }

  // ---------------------------------------------------------------- task ids

  /** Live tasks carry distinct ids, all handed out already. */
  ghost predicate UniqueIds(s: Table)
    requires s.Bounded()
  {
    && (forall i :: IsLive(s, i) ==> s.id[i] < s.nextId)
    && (forall i, j :: IsLive(s, i) && IsLive(s, j) && i != j ==> s.id[i] != s.id[j])
  }

  /** Ids stay unique, and a live task keeps its slot and its id, over every run. */
  lemma {:induction false} RunKeepsIds(s: Table, es: seq<Event>)
    requires s.Valid() && UniqueIds(s)
    ensures UniqueIds(Run(s, es))
    ensures forall i :: IsLive(s, i) ==> IsLive(Run(s, es), i) && Run(s, es).id[i] == s.id[i]
    decreases |es|
  {
    hide Pick, At, Distance, Switch;
    if es != [] {
      SwitchGoesToNearest(s);
      var r := Step(s, es[0]);
      assert UniqueIds(r) && forall i :: IsLive(s, i) ==> IsLive(r, i) && r.id[i] == s.id[i];
      RunKeepsIds(r, es[1..]);
    }
  }

  /** Numbers returned by creations increase over every run, so none is ever returned twice. */
  lemma LaterIdsAreLarger(s: Table, es: seq<Event>)
    requires s.Valid() && s.nextId >= 1
    ensures var (r, id) := Create(s);
            && r.Valid()
            && var later := Create(Run(r, es)).1;
               id != -1 && later != -1 ==> later > id
  {
    hide Pick, Switch;
    CreationTakesLowestSlot(s);
    RunKeepsNextId(Create(s).0, es);
    CreationTakesLowestSlot(Run(Create(s).0, es));
  }

  lemma {:induction false} RunKeepsNextId(s: Table, es: seq<Event>)
    requires s.Valid()
    ensures Run(s, es).nextId >= s.nextId
    decreases |es|
  {
    hide Pick, Switch;
    if es != [] {
      SwitchGoesToNearest(s);
      RunKeepsNextId(Step(s, es[0]), es[1..]);
    }
  }

  // ---------------------------------------------------------------- the code

  /** The static state of scheduler.c; the saved registers and stacks are not part of this model. */
  class RoundRobin {
    const states: array<nat>
    const ids: array<int>
    var currentTask: int
    var nextTaskId: int

    ghost predicate Valid()
      reads this
    {
      && states.Length == MAX_TASKS && ids.Length == MAX_TASKS && (states as object) != ids
      && -1 <= currentTask < MAX_TASKS
    }

    ghost function Tasks(): (s: Table)
      reads this, states, ids
      requires Valid()
      ensures s.Bounded()
    {
      Table(states[..], ids[..], currentTask, nextTaskId)
    }

    constructor ()
      ensures Valid() && fresh(states) && fresh(ids)
      ensures Tasks().state == seq(MAX_TASKS, _ => DEAD) && Tasks().id == seq(MAX_TASKS, _ => 0)
      ensures currentTask == -1 && nextTaskId == 1
    {
      states := new nat[MAX_TASKS](_ => 0);
      ids := new int[MAX_TASKS](_ => 0);
      currentTask := -1;
      nextTaskId := 1;
    }

    /** scheduler_init */
    method Init()
      requires Valid()
      modifies this`currentTask, states, ids
      ensures Valid()
      ensures Tasks() == Table(seq(MAX_TASKS, _ => DEAD), seq(MAX_TASKS, _ => 0), -1, old(nextTaskId))
    {
      var i := 0;
      while i < MAX_TASKS
        invariant 0 <= i <= MAX_TASKS
        invariant forall k :: 0 <= k < i ==> states[k] == 0 && ids[k] == 0
      {
        states[i] := 0;
        ids[i] := 0;
        i := i + 1;
      }
      currentTask := -1;
      assert states[..] == seq(MAX_TASKS, _ => DEAD);
      assert ids[..] == seq(MAX_TASKS, _ => 0);
    }

    /** scheduler_switch, up to the context switch */
    method OnTimer()
      requires Valid() && !SwitchFaults(Tasks())
      modifies this`currentTask, states
      ensures Valid() && Tasks() == Switch(old(Tasks()))
    {
      ghost var before := states[..];
      var oldTask := currentTask;
      var i := 0;
      while i < MAX_TASKS
        invariant 0 <= i <= MAX_TASKS && Valid() && states[..] == before
        invariant i > 0 ==> 0 <= currentTask
        invariant Pick(before, oldTask, MAX_TASKS) == Pick(before, currentTask, MAX_TASKS - i)
      {
        currentTask := (currentTask + 1) % MAX_TASKS;
        if states[currentTask] == 1 {
          break;
        }
        i := i + 1;
      }
      if currentTask == oldTask || states[currentTask] != 1 {
        currentTask := oldTask;
        return;
      }
      states[oldTask] := 1;
      states[currentTask] := 2;
    }

    /** scheduler_create_task, the slot and id part */
    method CreateTask() returns (id: int)
      requires Valid()
      modifies this`nextTaskId, states, ids
      ensures Valid() && (Tasks(), id) == Create(old(Tasks()))
    {
      ghost var before := states[..];
      var taskId := -1;
      var i := 0;
      while i < MAX_TASKS
        invariant 0 <= i <= MAX_TASKS && taskId == -1 && states[..] == before && ids[..] == old(ids[..])
        invariant nextTaskId == old(nextTaskId)
        invariant FirstDead(before, 0) == FirstDead(before, i)
      {
        if states[i] == 0 {
          taskId := i;
          break;
        }
        i := i + 1;
      }
      if taskId == -1 {
        return -1;
      }
      ids[taskId] := nextTaskId;
      nextTaskId := nextTaskId + 1;
      states[taskId] := 1;
      return ids[taskId];
    }
  }
}
