/** The server-wide striping target and its lock-free growth gate: concurrent
    `note_stall` calls whose atomic loads, compare-exchange and store interleave
    freely. Timestamps are the epoch milliseconds each call reads. */
module StripePlan {
  import opened Words

  const MAX_STRIPES: nat := 64
  const DWELL: nat := 500

  /** Where one call stands between two atomic operations. */
  datatype Pc =
    | Entered(now: nat)
    | Loaded(now: nat, last: nat)
    | Won
    | Counted(next: nat)

  /** `wins` records the values written into `last_growth`, oldest first. */
  datatype Plan = Plan(target: nat, last: nat, calls: map<nat, Pc>, wins: seq<nat>)

  datatype Step =
    | Enter(call: nat, now: nat)
    | LoadLast(call: nat)
    | Exchange(call: nat)
    | LoadTarget(call: nat)
    | Store(call: nat)

  predicate Next(p: Plan, p': Plan, step: Step) {
    match step
    case Enter(c, now) =>
      c !in p.calls && now > 0 && p' == p.(calls := p.calls[c := Entered(now)])
    case LoadLast(c) =>
      && c in p.calls && p.calls[c].Entered?
      && var now := p.calls[c].now;
         p' == p.(calls := if p.last != 0 && (if now >= p.last then now - p.last else 0) < DWELL
                           then p.calls - {c}
                           else p.calls[c := Loaded(now, p.last)])
    case Exchange(c) =>
      && c in p.calls && p.calls[c].Loaded?
      && p' == if p.last == p.calls[c].last
               then p.(last := p.calls[c].now, calls := p.calls[c := Won], wins := p.wins + [p.calls[c].now])
               else p.(calls := p.calls - {c})
    case LoadTarget(c) =>
      && c in p.calls && p.calls[c].Won?
      && p' == p.(calls := p.calls[c := Counted(Min(p.target + 1, MAX_STRIPES))])
    case Store(c) =>
      && c in p.calls && p.calls[c].Counted?
      && p' == p.(target := p.calls[c].next, calls := p.calls - {c})
  }

  /** `StripePlan::new`. */
  function New(target: nat): Plan {
    Plan(Max(1, Min(target, MAX_STRIPES)), 0, map[], [])
  }

  predicate IsRun(run: seq<Plan>, steps: seq<Step>) {
    && |run| == |steps| + 1 && run[0] == New(run[0].target)
    && forall i :: 0 <= i < |steps| ==> Next(run[i], run[i + 1], steps[i])
  }

  predicate Spaced(wins: seq<nat>) {
    forall i :: 0 <= i < |wins| - 1 ==> wins[i] + DWELL <= wins[i + 1]
  }

  predicate Inv(p: Plan) {
    && 1 <= p.target <= MAX_STRIPES
    && (forall i :: 0 <= i < |p.wins| ==> p.wins[i] > 0)
    && p.last == (if p.wins == [] then 0 else p.wins[|p.wins| - 1]) && Spaced(p.wins)
    && forall c :: c in p.calls ==>
         match p.calls[c]
         case Entered(now) => now > 0
         case Loaded(now, last) => now > 0 && (last == 0 || last + DWELL <= now)
         case Won => true
         case Counted(next) => 1 <= next <= MAX_STRIPES
  }

  lemma StepKeeps(p: Plan, p': Plan, step: Step)
    requires Inv(p) && Next(p, p', step)
    ensures Inv(p') && p.wins <= p'.wins
  {
  }

  lemma {:induction false} RunKeeps(run: seq<Plan>, steps: seq<Step>, i: nat)
    requires IsRun(run, steps) && i < |run|
    ensures Inv(run[i])
  {
    if i > 0 {
      RunKeeps(run, steps, i - 1);
      assert Next(run[i - 1], run[i], steps[i - 1]);
      StepKeeps(run[i - 1], run[i], steps[i - 1]);
    }
  }

  /** How many growth steps fall into the `w` milliseconds from `t`. */
  function Within(wins: seq<nat>, t: nat, w: nat): nat {
    if wins == [] then 0
    else Within(wins[..|wins| - 1], t, w) + (if t <= wins[|wins| - 1] <= t + w then 1 else 0)
  }

  /** Counting back from the newest step: `n` steps at or after `t` put it at least
      `n - 1` dwells after `t`. */
  lemma {:induction false} WithinBound(wins: seq<nat>, t: nat, w: nat)
    requires Spaced(wins)
    ensures var n := Within(wins, t, w);
            && (n > 0 ==> DWELL * (n - 1) <= w)
            && (n > 0 && wins[|wins| - 1] <= t + w ==> t + DWELL * (n - 1) <= wins[|wins| - 1])
  {
    if wins != [] {
      var front := wins[..|wins| - 1];
      WithinBound(front, t, w);
      if front != [] {
        assert front[|front| - 1] + DWELL <= wins[|wins| - 1];
      }
    }
  }

  /** Under every interleaving: successive growth steps are at least a dwell apart,
      any window of `w` milliseconds sees at most `1 + w / 500` of them, and the
      target stays a legal width. */
  lemma GrowthIsGated(run: seq<Plan>, steps: seq<Step>, i: nat, t: nat, w: nat)
    requires IsRun(run, steps) && i < |run|
    ensures Spaced(run[i].wins) && 1 <= run[i].target <= MAX_STRIPES
    ensures Within(run[i].wins, t, w) <= 1 + w / DWELL
  {
    RunKeeps(run, steps, i);
    WithinBound(run[i].wins, t, w);
  }

  // ------------------------------------------------------------ "never shrunk"

  predicate Storing(p: Plan, c: nat) {
    c in p.calls && (p.calls[c].Won? || p.calls[c].Counted?)
  }

  /** At most one call is between its winning exchange and its store. */
  ghost predicate Alone(p: Plan) {
    forall c, d :: Storing(p, c) && Storing(p, d) ==> c == d
  }

  /** How many growth steps have been stored. */
  ghost predicate Grown(p: Plan, start: nat) {
    if exists c :: Storing(p, c) then
      && p.wins != [] && p.target == Min(start + |p.wins| - 1, MAX_STRIPES)
      && forall c :: c in p.calls && p.calls[c].Counted? ==> p.calls[c].next == Min(p.target + 1, MAX_STRIPES)
    else p.target == Min(start + |p.wins|, MAX_STRIPES)
  }

  lemma GrownKeeps(p: Plan, p': Plan, step: Step, start: nat)
    requires Inv(p) && Next(p, p', step) && Alone(p) && Alone(p') && Grown(p, start)
    ensures Grown(p', start) && p.target <= p'.target
  {
    var c := step.call;
    forall d | d != c ensures Storing(p', d) <==> Storing(p, d) {}
    match step
    case Enter(_, _) => StorersKept(p, p', c);
    case LoadLast(_) => StorersKept(p, p', c);
    case Exchange(_) =>
      if Storing(p', c) {
        assert forall d :: !Storing(p, d);
        forall d | d in p'.calls && p'.calls[d].Counted? ensures d == c {
          assert Storing(p', d);
        }
      } else {
        StorersKept(p, p', c);
      }
    case LoadTarget(_) =>
      assert Storing(p, c) && Storing(p', c);
      forall d | d in p'.calls && p'.calls[d].Counted? ensures d == c {
        assert Storing(p', d);
      }
    case Store(_) =>
      assert Storing(p, c);
      assert forall d :: !Storing(p', d);
  }

  /** A step of a call that stores neither before nor after changes nothing here. */
  lemma StorersKept(p: Plan, p': Plan, c: nat)
    requires !Storing(p, c) && !Storing(p', c) && p'.target == p.target && p'.wins == p.wins
    requires forall d :: d != c ==> (d in p.calls <==> d in p'.calls) && (d in p.calls ==> p'.calls[d] == p.calls[d])
    ensures forall start: nat :: Grown(p, start) ==> Grown(p', start)
  {
    assert forall d :: Storing(p', d) <==> Storing(p, d);
    if exists d :: Storing(p, d) {
      var d :| Storing(p, d);
      assert Storing(p', d);
    }
  }

  /** As long as no two calls overlap between exchange and store, the target is
      exactly the starting width plus one per growth step, so it never shrinks. */
  lemma {:induction false} NeverShrinksAlone(run: seq<Plan>, steps: seq<Step>, i: nat)
    requires IsRun(run, steps) && i < |run|
    requires forall j :: 0 <= j < |run| ==> Alone(run[j])
    ensures Grown(run[i], run[0].target)
    ensures i > 0 ==> run[i - 1].target <= run[i].target
  {
    if i == 0 {
      assert !exists c :: Storing(run[0], c);
    } else {
      NeverShrinksAlone(run, steps, i - 1);
      RunKeeps(run, steps, i - 1);
      assert Next(run[i - 1], run[i], steps[i - 1]);
      GrownKeeps(run[i - 1], run[i], steps[i - 1], run[0].target);
    }
  }

  /** The last thing call `c` did before step `i` was to load the target, in step `k`. */
  predicate LoadedAt(steps: seq<Step>, c: nat, k: nat, i: nat) {
    k < i <= |steps| && steps[k] == LoadTarget(c) && forall m :: k < m < i ==> steps[m].call != c
  }

  /** What a call is about to store is one more than the width it loaded. */
  lemma {:induction false} StoresWhatItLoaded(run: seq<Plan>, steps: seq<Step>, i: nat, c: nat) returns (k: nat)
    requires IsRun(run, steps) && i < |run| && c in run[i].calls && run[i].calls[c].Counted?
    ensures LoadedAt(steps, c, k, i) && run[i].calls[c].next == Min(run[k].target + 1, MAX_STRIPES)
  {
    assert i > 0;
    var step := steps[i - 1];
    assert Next(run[i - 1], run[i], step);
    if step == LoadTarget(c) {
      k := i - 1;
    } else {
      assert step.call != c && run[i - 1].calls[c] == run[i].calls[c];
      k := StoresWhatItLoaded(run, steps, i - 1, c);
    }
  }

  lemma LoadedOnce(steps: seq<Step>, c: nat, k: nat, l: nat, i: nat)
    requires LoadedAt(steps, c, k, i) && LoadedAt(steps, c, l, i)
    ensures k == l
  {
    assert steps[k].call == c && steps[l].call == c;
  }

  /** In every run a step lowers the target if and only if it is a store whose call
      loaded the target when it was at least two below what it is now. */
  lemma ShrinksExactlyWhenStale(run: seq<Plan>, steps: seq<Step>, i: nat)
    requires IsRun(run, steps) && i < |steps|
    ensures run[i + 1].target < run[i].target <==>
            && steps[i].Store?
            && exists k: nat :: LoadedAt(steps, steps[i].call, k, i) && run[k].target + 2 <= run[i].target
  {
    assert Next(run[i], run[i + 1], steps[i]);
    RunKeeps(run, steps, i);
    if steps[i].Store? {
      var c := steps[i].call;
      var k := StoresWhatItLoaded(run, steps, i, c);
      forall l: nat | LoadedAt(steps, c, l, i) ensures l == k {
        LoadedOnce(steps, c, k, l, i);
      }
    }
  }

  /** One call from start to end with no other in between: it grows the target by one,
      up to 64, and records its time, if and only if nothing ever grew it or the last
      growth is at least 500 ms back; otherwise it changes nothing. */
  lemma StallAlone(p: Plan, c: nat, now: nat) returns (states: seq<Plan>, steps: seq<Step>)
    requires c !in p.calls && now > 0
    ensures |states| == |steps| + 1 && states[0] == p
    ensures forall i :: 0 <= i < |steps| ==> Next(states[i], states[i + 1], steps[i]) && steps[i].call == c
    ensures var p' := states[|steps|];
            && p'.calls == p.calls
            && (if p.last == 0 || now >= p.last + 500
                then p'.target == Min(p.target + 1, 64) && p'.last == now && p'.wins == p.wins + [now]
                else p'.target == p.target && p'.last == p.last && p'.wins == p.wins)
  {
    var p1 := p.(calls := p.calls[c := Entered(now)]);
    if p.last == 0 || now >= p.last + 500 {
      var p2 := p.(calls := p.calls[c := Loaded(now, p.last)]);
      assert p1.calls[c := Loaded(now, p.last)] == p2.calls;
      var p3 := p.(last := now, calls := p.calls[c := Won], wins := p.wins + [now]);
      assert p2.calls[c := Won] == p3.calls;
      var next := Min(p.target + 1, MAX_STRIPES);
      var p4 := p3.(calls := p.calls[c := Counted(next)]);
      assert p3.calls[c := Counted(next)] == p4.calls;
      var p5 := p3.(target := next, calls := p.calls);
      assert p4.calls - {c} == p5.calls;
      states := [p, p1, p2, p3, p4, p5];
      steps := [Enter(c, now), LoadLast(c), Exchange(c), LoadTarget(c), Store(c)];
    } else {
      assert p1.calls - {c} == p.calls;
      states, steps := [p, p1, p], [Enter(c, now), LoadLast(c)];
    }
  }

  lemma Extend(run: seq<Plan>, steps: seq<Step>, p: Plan, step: Step)
    requires IsRun(run, steps) && Next(run[|run| - 1], p, step)
    ensures IsRun(run + [p], steps + [step])
  {
    hide Next, New;
    forall i | 0 <= i < |steps + [step]| ensures Next((run + [p])[i], (run + [p])[i + 1], (steps + [step])[i]) {
      if i < |steps| {
        assert Next(run[i], run[i + 1], steps[i]);
      }
    }
  }

  /** One uninterrupted call that clears the dwell, beside a parked call. */
  lemma Grow(run: seq<Plan>, steps: seq<Step>, now: nat) returns (run': seq<Plan>, steps': seq<Step>)
    requires IsRun(run, steps)
    requires var p := run[|run| - 1];
             p.calls.Keys == {1} && p.calls[1].Counted? && 0 < p.last && p.last + DWELL <= now && p.target < MAX_STRIPES
    ensures IsRun(run', steps') && |run'| > |run|
    ensures var p, p' := run[|run| - 1], run'[|run'| - 1];
            p' == Plan(p.target + 1, now, p.calls, p.wins + [now])
  {
    var p := run[|run| - 1];
    hide IsRun;
    var p1 := p.(calls := p.calls[2 := Entered(now)]);
    var p2 := p.(calls := p.calls[2 := Loaded(now, p.last)]);
    var p3 := p.(last := now, calls := p.calls[2 := Won], wins := p.wins + [now]);
    var p4 := p3.(calls := p.calls[2 := Counted(p.target + 1)]);
    var p5 := p3.(target := p.target + 1, calls := p.calls);
    assert p5.calls == p4.calls - {2};
    run', steps' := run, steps;
    Extend(run', steps', p1, Enter(2, now));
    run', steps' := run' + [p1], steps' + [Enter(2, now)];
    assert p1.calls[2 := Loaded(now, p.last)] == p2.calls;
    Extend(run', steps', p2, LoadLast(2));
    run', steps' := run' + [p2], steps' + [LoadLast(2)];
    assert p2.calls[2 := Won] == p3.calls;
    Extend(run', steps', p3, Exchange(2));
    run', steps' := run' + [p3], steps' + [Exchange(2)];
    assert p3.calls[2 := Counted(p.target + 1)] == p4.calls;
    Extend(run', steps', p4, LoadTarget(2));
    run', steps' := run' + [p4], steps' + [LoadTarget(2)];
    Extend(run', steps', p5, Store(2));
    run', steps' := run' + [p5], steps' + [Store(2)];
  }

  /** A call held up between loading the target and storing its successor writes a
      stale width: with two later growth steps in between, the target shrinks. */
  lemma TargetCanShrink() returns (run: seq<Plan>, steps: seq<Step>)
    ensures IsRun(run, steps) && |run| > 1 && run[|run| - 1].target < run[|run| - 2].target
  {
    var p0 := New(3);
    var p1 := Plan(3, 0, map[1 := Entered(1000)], []);
    var p2 := Plan(3, 0, map[1 := Loaded(1000, 0)], []);
    var p3 := Plan(3, 1000, map[1 := Won], [1000]);
    var p4 := Plan(3, 1000, map[1 := Counted(4)], [1000]);
    run, steps := [p0], [];
    assert IsRun(run, steps);
    hide IsRun;
    Extend(run, steps, p1, Enter(1, 1000));
    run, steps := run + [p1], steps + [Enter(1, 1000)];
    Extend(run, steps, p2, LoadLast(1));
    run, steps := run + [p2], steps + [LoadLast(1)];
    Extend(run, steps, p3, Exchange(1));
    run, steps := run + [p3], steps + [Exchange(1)];
    Extend(run, steps, p4, LoadTarget(1));
    run, steps := run + [p4], steps + [LoadTarget(1)];
    run, steps := Grow(run, steps, 1500);
    run, steps := Grow(run, steps, 2000);
    var last := run[|run| - 1];
    var stale := last.(target := 4, calls := last.calls - {1});
    Extend(run, steps, stale, Store(1));
    run, steps := run + [stale], steps + [Store(1)];
  }
}
