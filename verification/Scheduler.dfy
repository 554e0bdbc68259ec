/** The scheduler as the kernel keeps it: one array cell per context, changed in place. */
module Scheduler {
  import opened ProcessState
  import opened SchedulerSpec

  class Contexts {
    const state: array<ProcState>
    const ticksToSleep: array<nat>
    var current: nat

    ghost predicate Valid()
      reads this, state, ticksToSleep
    {
      2 <= state.Length == ticksToSleep.Length && current < state.Length
    }

    ghost function View(): Sched
      reads this, state, ticksToSleep
    {
      Sched(state[..], ticksToSleep[..], current)
    }

    /** `n` contexts, of which only the swapper runs. */
    constructor (n: nat)
      requires 2 <= n
      ensures Valid() && fresh(state) && fresh(ticksToSleep)
      ensures state.Length == n && current == 0 && state[0] == Running
      ensures forall i | 1 <= i < n :: state[i] == Unused && ticksToSleep[i] == 0
    {
      state := new ProcState[n](i => if i == 0 then Running else Unused);
      ticksToSleep := new nat[n](_ => 0);
      current := 0;
    }

    method PickNextContext(ctx: nat) returns (r: nat)
      requires Valid() && ctx < state.Length
      ensures r == PickFrom(state[..], ctx, 0)
    {
      var pid := if ctx + 1 == state.Length then 1 else ctx + 1;
      ghost var k := 0;
      while pid != 0
        invariant k < state.Length && PickFrom(state[..], ctx, k) == PickFrom(state[..], ctx, 0)
        invariant if pid == 0 then k + 1 == state.Length
                  else k + 1 < state.Length && pid == Candidate(state.Length, ctx, k)
        decreases state.Length - k
      {
        if state[pid].Ready? { return pid; }
        pid, k := pid + 1, k + 1;
        if pid == ctx + 1 { pid := 0; }
        if pid == state.Length {
          pid := 1;
          if ctx == 0 { break; }
        }
      }
      r := 0;
    }

    method DoSleepAccount()
      requires Valid()
      modifies state, ticksToSleep
      ensures Valid() && View() == Accounted(old(View()))
    {
      var ctr := 0;
      while ctr < state.Length
        invariant ctr <= state.Length
        invariant forall i | 0 <= i < ctr :: (state[i], ticksToSleep[i]) == Account(old(state[i]), old(ticksToSleep[i]))
        invariant forall i | ctr <= i < state.Length ::
                    state[i] == old(state[i]) && ticksToSleep[i] == old(ticksToSleep[i])
      {
        if state[ctr].Waiting? && ticksToSleep[ctr] > 0 {
          ticksToSleep[ctr] := ticksToSleep[ctr] - 1;
          if ticksToSleep[ctr] == 0 { state[ctr] := Ready; }
        }
        ctr := ctr + 1;
      }
      assert state[..] == Accounted(old(View())).st;
      assert ticksToSleep[..] == Accounted(old(View())).sleep;
    }

    /** The state change of schedule. */
    method Schedule(next: nat)
      requires Valid() && next < state.Length
      modifies this`current, state
      ensures Valid() && View() == SchedulerSpec.Dispatch(old(View()), next)
    {
      current := next;
      state[next] := Running;
    }

    method HandleTimerTick()
      requires Valid()
      modifies this`current, state, ticksToSleep
      ensures Valid() && View() == Tick(old(View()))
    {
      var ctx := current;
      DoSleepAccount();
      state[ctx] := Ready;
      var next := PickNextContext(ctx);
      if ctx == next { return; }
      current := next;
      state[next] := Running;
    }
  }
}
