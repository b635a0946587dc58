/** The system scheduler of the ECS runtime: an ordered list of systems run once per
    tick in registration order. A system is a label `S`; its behaviour is the
    `run` function handed to `Update`, which maps (system, world, delta) to the
    world that system leaves behind. The delta time is passed through unexamined. */
module Scheduler {

  datatype SystemScheduler<S> = SystemScheduler(systems: seq<S>)

  /** One call `system.update(world, delta_time)`: which system, the world it saw, the delta. */
  datatype Invocation<S, W, D> = Invocation(system: S, world: W, dt: D)

  /** `system_count`. */
  function SystemCount<S>(sc: SystemScheduler<S>): (n: nat)
    ensures n == 0 <==> sc.systems == []
  {
    |sc.systems|
  }

  /** `SystemScheduler::new`. */
  function NewScheduler<S>(): (sc: SystemScheduler<S>)
    ensures SystemCount(sc) == 0
  {
    SystemScheduler([])
  }

  /** `add_system`: appends after every system already registered. */
  function AddSystem<S>(sc: SystemScheduler<S>, s: S): (r: SystemScheduler<S>)
    ensures SystemCount(r) == SystemCount(sc) + 1
    ensures r.systems[..SystemCount(sc)] == sc.systems
    ensures r.systems[SystemCount(sc)] == s
  {
    SystemScheduler(sc.systems + [s])
  }

  /** Registers the systems one `add_system` call at a time. */
  function AddSystems<S>(sc: SystemScheduler<S>, ss: seq<S>): (r: SystemScheduler<S>)
    decreases |ss|
  {
    if |ss| == 0 then sc else AddSystems(AddSystem(sc, ss[0]), ss[1..])
  }

  /** `system_count` equals the number of `add_system` calls, and the systems keep the
      order in which they were added. */
  lemma {:induction false} AddSystemsCountsCalls<S>(ss: seq<S>)
    ensures AddSystems(NewScheduler(), ss).systems == ss
    ensures SystemCount(AddSystems(NewScheduler(), ss)) == |ss|
  {
    AddSystemsAppends(NewScheduler(), ss);
  }

  lemma {:induction false} AddSystemsAppends<S>(sc: SystemScheduler<S>, ss: seq<S>)
    ensures AddSystems(sc, ss).systems == sc.systems + ss
    decreases |ss|
  {
    if |ss| > 0 {
      AddSystemsAppends(AddSystem(sc, ss[0]), ss[1..]);
      assert sc.systems + [ss[0]] + ss[1..] == sc.systems + ss;
    }
  }

  /** Runs `systems` in order, each on the world the previous one left, and records each call. */
  function RunAll<S, W, D>(systems: seq<S>, w: W, dt: D, run: (S, W, D) -> W): (r: (W, seq<Invocation<S, W, D>>))
    ensures |r.1| == |systems|
    ensures forall i | 0 <= i < |systems| :: r.1[i].system == systems[i] && r.1[i].dt == dt
    ensures |systems| > 0 ==> r.1[0].world == w
    ensures forall i | 0 <= i < |systems| - 1 :: r.1[i + 1].world == run(systems[i], r.1[i].world, dt)
    ensures r.0 == if |systems| == 0 then w else run(systems[|systems| - 1], r.1[|systems| - 1].world, dt)
    decreases |systems|
  {
    if |systems| == 0 then (w, [])
    else
      var (w', trace) := RunAll(systems[1..], run(systems[0], w, dt), dt, run);
      (w', [Invocation(systems[0], w, dt)] + trace)
  }

  /** `update`: every registered system is invoked exactly once, in registration order,
      each with the same delta time, threading the one world through them. */
  function Update<S, W, D>(sc: SystemScheduler<S>, w: W, dt: D, run: (S, W, D) -> W): (r: (W, seq<Invocation<S, W, D>>))
    ensures |r.1| == SystemCount(sc)
    ensures forall i | 0 <= i < |r.1| :: r.1[i].system == sc.systems[i] && r.1[i].dt == dt
    ensures |r.1| > 0 ==> r.1[0].world == w
    ensures forall i | 0 <= i < |r.1| - 1 :: r.1[i + 1].world == run(sc.systems[i], r.1[i].world, dt)
    ensures r.0 == if |r.1| == 0 then w else run(sc.systems[|r.1| - 1], r.1[|r.1| - 1].world, dt)
  {
    RunAll(sc.systems, w, dt, run)
  }

  /** A tick over `a + b` is a tick over `a` followed by a tick over `b`. */
  lemma {:induction false} RunAllSplits<S, W, D>(a: seq<S>, b: seq<S>, w: W, dt: D, run: (S, W, D) -> W)
    ensures var first := RunAll(a, w, dt, run);
      var second := RunAll(b, first.0, dt, run);
      RunAll(a + b, w, dt, run) == (second.0, first.1 + second.1)
    decreases |a|
  {
    if |a| == 0 {
      assert a + b == b;
      var second := RunAll(b, w, dt, run);
      assert RunAll(a, w, dt, run) == (w, []);
      assert [] + second.1 == second.1;
    } else {
      var w1 := run(a[0], w, dt);
      assert (a + b)[1..] == a[1..] + b;
      RunAllSplits(a[1..], b, w1, dt, run);
      var tail := RunAll(a[1..], w1, dt, run);
      var second := RunAll(b, tail.0, dt, run);
      var inv := Invocation(a[0], w, dt);
      assert RunAll(a + b, w, dt, run) == (second.0, [inv] + (tail.1 + second.1));
      assert [inv] + (tail.1 + second.1) == ([inv] + tail.1) + second.1;
    }
  }

  /** A system that appends its own name to a shared log. */
  function AppendName(name: string, log: seq<string>, dt: real): seq<string> {
    log + [name]
  }

  /** With systems that each log their name, one tick appends the names in registration
      order, each exactly once. */
  lemma {:induction false} LoggingTickRecordsOrder(names: seq<string>, log: seq<string>, dt: real)
    ensures Update(SystemScheduler(names), log, dt, AppendName).0 == log + names
    decreases |names|
  {
    if |names| > 0 {
      LoggingTickRecordsOrder(names[1..], log + [names[0]], dt);
      assert log + [names[0]] + names[1..] == log + names;
    }
  }
}
