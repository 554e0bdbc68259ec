/** The debugger and its child take turns: runs of fork, continue, breakpoint
    stop, sleep, timer tick and child exit. */
module Handoff {
  import opened ProcessState
  import opened SchedulerSpec

  /** `child` matters while `alive`. */
  datatype Pair = Pair(s: Sched, debugger: nat, child: nat, alive: bool)

  datatype Step =
    | ForkStep(child: nat)
    | ContinueStep
    | StopStep
    | SleepStep(ticks: nat)
    | TickStep
    | ChildExitStep
    | OtherStep(after: Sched, next: nat)   // some other context runs, and then `next` is scheduled

  predicate Untouched(s: Sched, after: Sched, x: nat)
    requires Wf(s) && Wf(after)
  {
    x < |s.st| == |after.st| && after.st[x] == s.st[x] && after.sleep[x] == s.sleep[x]
  }

  predicate Enabled(p: Pair, step: Step)
    requires Wf(p.s)
  {
    match step
    case ForkStep(child) =>
      p.s.current == p.debugger && !p.alive && 1 <= child < |p.s.st| && child != p.debugger && p.s.st[child].Unused?
    case ContinueStep => p.s.current == p.debugger && p.alive
    case StopStep => p.s.current == p.child && p.alive
    case SleepStep(ticks) => ticks > 0
    case TickStep => true
    case ChildExitStep => p.s.current == p.child && p.alive
    case OtherStep(after, next) =>
      && p.s.current != p.debugger && (p.alive ==> p.s.current != p.child)
      && Wf(after) && |after.st| == |p.s.st| && next < |after.st|
      && Untouched(p.s, after, p.debugger) && (p.alive ==> Untouched(p.s, after, p.child))
      && (next == p.debugger || (p.alive && next == p.child) ==> after.st[next].Ready?)
  }

  predicate Pids(p: Pair) {
    Wf(p.s) && 1 <= p.debugger < |p.s.st| && (p.alive ==> 1 <= p.child < |p.s.st| && p.child != p.debugger)
  }

  function Apply(p: Pair, step: Step): Pair
    requires Pids(p) && Enabled(p, step)
  {
    var s, d, c := p.s, p.debugger, p.child;
    match step
    case ForkStep(child) =>
      p.(child := child, alive := true, s := s.(st := s.st[child := Waiting], sleep := s.sleep[child := s.sleep[d]]))
    case ContinueStep => p.(s := Dispatch(s.(st := s.st[d := Waiting][c := Ready]), c))
    case StopStep => p.(s := Dispatch(s.(st := s.st[c := Waiting][d := Ready]), d))
    case SleepStep(ticks) =>
      var st := s.st[s.current := Waiting];
      p.(s := PickNow(s.(st := st, sleep := s.sleep[s.current := ticks])))
    case TickStep => p.(s := Tick(s))
    case ChildExitStep =>
      var st := s.st[d := Ready][c := Unused];
      p.(alive := false, s := PickNow(s.(st := st)))
    case OtherStep(after, next) => p.(s := Dispatch(after, next))
  }

  predicate Runnable(s: Sched, x: nat)
    requires x < |s.st|
  {
    s.st[x].Ready? || s.st[x].Running?
  }

  /** Runs, may be picked to run, or sleeps for some ticks; not: waits for the other. */
  predicate Up(s: Sched, x: nat)
    requires x < |s.st| == |s.sleep|
  {
    Runnable(s, x) || (s.st[x].Waiting? && s.sleep[x] > 0)
  }

  predicate Clean(s: Sched, x: nat)
    requires x < |s.st| == |s.sleep|
  {
    && (Runnable(s, x) ==> s.sleep[x] == 0)
    && (s.current == x ==> Runnable(s, x))
    && (Up(s, x) || s.st[x].Waiting?)
  }

  /** Of debugger and child exactly one is up; a debugger without child is. */
  predicate Inv(p: Pair) {
    && Pids(p)
    && Clean(p.s, p.debugger)
    && (p.alive ==> Clean(p.s, p.child))
    && (if p.alive then Up(p.s, p.debugger) != Up(p.s, p.child) else Up(p.s, p.debugger))
  }

  /** How a tick treats a context that is up or waits for the other. */
  lemma TickKeepsUp(s: Sched, x: nat)
    requires Wf(s) && 1 <= x < |s.st| && Clean(s, x)
    ensures Clean(Tick(s), x) && Up(Tick(s), x) == Up(s, x)
  {
    var b := Accounted(s).st[s.current := Ready];
    assert b[x] == if x == s.current then Ready else Account(s.st[x], s.sleep[x]).0;
  }

  lemma SleepKeepsUp(p: Pair, ticks: nat, x: nat)
    requires Pids(p) && 1 <= x < |p.s.st| && Clean(p.s, x) && ticks > 0
    ensures var s := Apply(p, SleepStep(ticks)).s; Clean(s, x) && Up(s, x) == Up(p.s, x)
  {
  }

  lemma StepKeepsInv(p: Pair, step: Step)
    requires Inv(p) && Enabled(p, step)
    ensures Inv(Apply(p, step))
  {
    match step
    case TickStep =>
      TickKeepsUp(p.s, p.debugger);
      if p.alive { TickKeepsUp(p.s, p.child); }
    case SleepStep(ticks) =>
      SleepKeepsUp(p, ticks, p.debugger);
      if p.alive { SleepKeepsUp(p, ticks, p.child); }
    case _ =>
  }

  /** Continuing and stopping give the processor directly to the other one, which was
      waiting, and touch no third context; a forked child waits until it is continued;
      an exit leaves the debugger up. */
  lemma HandsOver(p: Pair, step: Step)
    requires Inv(p) && Enabled(p, step)
    ensures var s, t, d := p.s, Apply(p, step).s, p.debugger;
            match step
            case ContinueStep =>
              && !Runnable(s, p.child) && t.current == p.child && t.st[p.child].Running? && !Up(t, d)
              && forall q | 0 <= q < |s.st| && q != d && q != p.child :: t.st[q] == s.st[q] && t.sleep[q] == s.sleep[q]
            case StopStep =>
              && !Runnable(s, d) && t.current == d && t.st[d].Running? && !Up(t, p.child)
              && forall q | 0 <= q < |s.st| && q != d && q != p.child :: t.st[q] == s.st[q] && t.sleep[q] == s.sleep[q]
            case ForkStep(child) =>
              && t.current == d && t.st[child].Waiting? && !Up(t, child)
              && forall q | 0 <= q < |s.st| && q != child :: t.st[q] == s.st[q] && t.sleep[q] == s.sleep[q]
            case ChildExitStep => t.st[p.child].Unused? && Runnable(t, d)
            case _ => true
  {
  }

  /** A context that asks to sleep for some ticks waits until the last of them and is
      READY or running right after it. */
  lemma SleepWakes(p: Pair, ticks: nat, k: nat)
    requires Pids(p) && p.s.current >= 1 && ticks > 0 && k <= ticks
    ensures var x, r := p.s.current, TickTimes(Apply(p, SleepStep(ticks)).s, k);
            if k < ticks then r.st[x].Waiting? && r.current != x
            else if r.current == x then r.st[x].Running? else r.st[x].Ready?
  {
    SleepsExactly(Apply(p, SleepStep(ticks)).s, p.s.current, k);
  }

  predicate Run(p: Pair, steps: seq<Step>, p': Pair)
    decreases |steps|
  {
    if steps == [] then p' == p
    else Pids(p) && Enabled(p, steps[0]) && Run(Apply(p, steps[0]), steps[1..], p')
  }

  /** A debugger that runs and has not forked. */
  predicate Initial(p: Pair) {
    Pids(p) && !p.alive && p.s.current == p.debugger && Runnable(p.s, p.debugger) && p.s.sleep[p.debugger] == 0
  }

  lemma {:induction false} RunKeepsInv(p: Pair, steps: seq<Step>, p': Pair)
    requires Inv(p) && Run(p, steps, p')
    ensures Inv(p')
    decreases |steps|
  {
    hide Enabled, Apply;
    if steps != [] {
      StepKeepsInv(p, steps[0]);
      RunKeepsInv(Apply(p, steps[0]), steps[1..], p');
    }
  }

  /** Over any run, whenever the child is alive the two are never both READY or
      RUNNING, and never both waiting for the other. */
  lemma TakeTurns(p: Pair, steps: seq<Step>, p': Pair)
    requires Initial(p) && Run(p, steps, p') && p'.alive
    ensures Inv(p')
    ensures !(Runnable(p'.s, p'.debugger) && Runnable(p'.s, p'.child))
    ensures Up(p'.s, p'.debugger) || Up(p'.s, p'.child)
  {
    assert Inv(p);
    RunKeepsInv(p, steps, p');
  }
}
