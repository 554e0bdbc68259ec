/** Round-robin scheduling among `n` contexts, context 0 being the swapper. */
module SchedulerSpec {
  import opened ProcessState

  datatype Sched = Sched(st: seq<ProcState>, sleep: seq<nat>, current: nat)

  predicate Wf(s: Sched) {
    2 <= |s.st| == |s.sleep| && s.current < |s.st|
  }

  // ---------------------------------------------------------------- the cyclic order

  /** The `k`-th context looked at from `p`: p+1 .. n-1, then 1 .. p. */
  function Candidate(n: nat, p: nat, k: nat): (q: nat)
    requires p < n && k + 1 < n
    ensures 1 <= q < n
  {
    if p + 1 + k < n then p + 1 + k else p + 2 + k - n
  }

  /** How many contexts are looked at before `q`. */
  function Distance(n: nat, p: nat, q: nat): (k: nat)
    requires p < n && 1 <= q < n
    ensures k + 1 < n
  {
    if p < q then q - p - 1 else q + n - p - 2
  }

  /** The order names every context but the swapper exactly once. */
  lemma CandidateDistance(n: nat, p: nat, q: nat, k: nat)
    requires p < n && 1 <= q < n && k + 1 < n
    ensures Candidate(n, p, k) == q <==> Distance(n, p, q) == k
  {
  }

  /** The first READY context in cyclic order from the `k`-th on; else the swapper. */
  function PickFrom(st: seq<ProcState>, p: nat, k: nat): (r: nat)
    requires p < |st| && k < |st|
    ensures r < |st| && (r != 0 ==> st[r].Ready?)
    decreases |st| - k
  {
    if k + 1 == |st| then 0
    else if st[Candidate(|st|, p, k)].Ready? then Candidate(|st|, p, k)
    else PickFrom(st, p, k + 1)
  }

  lemma {:induction false} PickFromIsFirst(st: seq<ProcState>, p: nat, k: nat, q: nat)
    requires p < |st| && k < |st| && 1 <= q < |st| && st[q].Ready? && k <= Distance(|st|, p, q)
    ensures var r := PickFrom(st, p, k); r != 0 && Distance(|st|, p, r) <= Distance(|st|, p, q)
    decreases |st| - k
  {
    CandidateDistance(|st|, p, q, k);
    if st[Candidate(|st|, p, k)].Ready? {
      CandidateDistance(|st|, p, Candidate(|st|, p, k), k);
    } else {
      PickFromIsFirst(st, p, k + 1, q);
    }
  }

  /** The context picked is READY and no READY one comes before it; the swapper is
      picked exactly when no user context is READY. */
  lemma PickIsFirst(st: seq<ProcState>, p: nat)
    requires p < |st| && 2 <= |st|
    ensures var r := PickFrom(st, p, 0);
            && (r == 0 <==> forall q | 1 <= q < |st| :: !st[q].Ready?)
            && (r != 0 ==> st[r].Ready? && forall q | 1 <= q < |st| && st[q].Ready? ::
                 Distance(|st|, p, r) <= Distance(|st|, p, q))
  {
    forall q | 1 <= q < |st| && st[q].Ready?
      ensures PickFrom(st, p, 0) != 0 && Distance(|st|, p, PickFrom(st, p, 0)) <= Distance(|st|, p, q)
    {
      PickFromIsFirst(st, p, 0, q);
    }
  }

  // ---------------------------------------------------------------- the tick

  /** What sleep accounting makes of one context. */
  function Account(p: ProcState, sleep: nat): (ProcState, nat) {
    if p.Waiting? && sleep > 0 then (if sleep == 1 then Ready else p, sleep - 1) else (p, sleep)
  }

  function Accounted(s: Sched): (r: Sched)
    requires Wf(s)
    ensures Wf(r) && |r.st| == |s.st| && r.current == s.current
    ensures forall i | 0 <= i < |s.st| :: (r.st[i], r.sleep[i]) == Account(s.st[i], s.sleep[i])
  {
    Sched(seq(|s.st|, i requires 0 <= i < |s.st| => Account(s.st[i], s.sleep[i]).0),
          seq(|s.st|, i requires 0 <= i < |s.st| => Account(s.st[i], s.sleep[i]).1), s.current)
  }

  function Dispatch(s: Sched, next: nat): Sched
    requires Wf(s) && next < |s.st|
  {
    s.(st := s.st[next := Running], current := next)
  }

  /** handle_timer_tick. */
  function Tick(s: Sched): (r: Sched)
    requires Wf(s)
    ensures Wf(r) && |r.st| == |s.st|
  {
    var a := Accounted(s);
    var b := a.(st := a.st[s.current := Ready]);
    var next := PickFrom(b.st, s.current, 0);
    if next == s.current then b else Dispatch(b, next)
  }

  /** A tick keeps the running context exactly when no other user context is
      READY after sleep accounting; it then leaves that context READY, not RUNNING. */
  lemma KeepsRunningExactly(s: Sched)
    requires Wf(s) && s.current >= 1
    ensures Tick(s).current == s.current <==>
              forall q | 1 <= q < |s.st| && q != s.current :: !Accounted(s).st[q].Ready?
    ensures if Tick(s).current == s.current then Tick(s).st[s.current].Ready? else Tick(s).st[Tick(s).current].Running?
  {
    var b := Accounted(s).st[s.current := Ready];
    PickIsFirst(b, s.current);
    var r := PickFrom(b, s.current, 0);
    assert forall q | 0 <= q < |b| && q != s.current :: b[q] == Accounted(s).st[q];
    if q :| 1 <= q < |b| && q != s.current && Accounted(s).st[q].Ready? {
      assert b[q].Ready?;
      assert Distance(|b|, s.current, r) <= Distance(|b|, s.current, q) < Distance(|b|, s.current, s.current);
    } else {
      assert b[s.current].Ready?;
    }
  }

  /** A tick, context by context: one that sleeps comes a tick nearer to waking and is
      READY when none is left; the outgoing one is READY; the incoming one was READY
      (unless it is the swapper) and is RUNNING; nothing else changes. */
  lemma TickExactly(s: Sched)
    requires Wf(s)
    ensures var t := Tick(s);
            && |t.sleep| == |s.sleep|
            && (forall q | 0 <= q < |s.st| ::
                  t.sleep[q] == if s.st[q].Waiting? && s.sleep[q] > 0 then s.sleep[q] - 1 else s.sleep[q])
            && (forall q | 0 <= q < |s.st| && q != s.current && q != t.current ::
                  t.st[q] == if s.st[q].Waiting? && s.sleep[q] == 1 then Ready else s.st[q])
            && t.st[s.current].Ready? && (t.current != s.current ==> t.st[t.current].Running?)
            && (t.current != s.current && t.current != 0 ==>
                  s.st[t.current].Ready? || (s.st[t.current].Waiting? && s.sleep[t.current] == 1))
  {
    var b := Accounted(s).st[s.current := Ready];
    assert forall q | 0 <= q < |b| && q != s.current :: b[q] == Account(s.st[q], s.sleep[q]).0;
    assert Tick(s).sleep == Accounted(s).sleep;
  }

  // ---------------------------------------------------------------- fairness

  /** An exit, or any call that gives the processor up: the context has already
      changed its own state, the next one is picked and scheduled. */
  function PickNow(s: Sched): (r: Sched)
    requires Wf(s)
    ensures Wf(r) && |r.st| == |s.st|
  {
    Dispatch(s, PickFrom(s.st, s.current, 0))
  }

  /** A pick that does not choose a READY context chooses one before it in the
      cyclic order, and so comes closer to it. */
  lemma PickComesCloser(st: seq<ProcState>, p: nat, q: nat)
    requires 2 <= |st| && p < |st| && 1 <= q < |st| && q != p && st[q].Ready?
    ensures var c := PickFrom(st, p, 0);
            c == q || (c != 0 && Distance(|st|, c, q) < Distance(|st|, p, q))
  {
    PickFromIsFirst(st, p, 0, q);
    var c := PickFrom(st, p, 0);
    CandidateDistance(|st|, p, c, Distance(|st|, p, c));
    CandidateDistance(|st|, p, q, Distance(|st|, p, q));
  }

  /** How the processor changes hands. */
  datatype Change = ByTick | ByPick

  function Changed(s: Sched, how: Change): (r: Sched)
    requires Wf(s)
    ensures Wf(r) && |r.st| == |s.st|
  {
    if how.ByTick? then Tick(s) else PickNow(s)
  }

  lemma ChangeComesCloser(s: Sched, how: Change, q: nat)
    requires Wf(s) && 1 <= q < |s.st| && q != s.current && s.st[q].Ready?
    ensures var t := Changed(s, how);
            t.current == q ||
            (t.current != 0 && t.st[q].Ready? && Distance(|s.st|, t.current, q) < Distance(|s.st|, s.current, q))
  {
    if how.ByTick? {
      var b := Accounted(s).st[s.current := Ready];
      assert b[q].Ready?;
      PickComesCloser(b, s.current, q);
    } else {
      PickComesCloser(s.st, s.current, q);
    }
  }

  /** Giving up touches no other context. */
  lemma PickExactly(s: Sched)
    requires Wf(s)
    ensures var t := PickNow(s);
            && t.sleep == s.sleep && t.st[t.current].Running?
            && (t.current != 0 ==> s.st[t.current].Ready?)
            && forall q | 0 <= q < |s.st| && q != t.current :: t.st[q] == s.st[q]
  {
  }

  /** States before successive changes, each by a tick or by a pick.  Between them
      anything may happen to the contexts, but no other context is scheduled
      directly and nobody takes a READY `q` out of the queue. */
  predicate Changes(trace: seq<Sched>, hows: seq<Change>, q: nat) {
    && |hows| == |trace|
    && (forall i | 0 <= i < |trace| :: Wf(trace[i]) && q < |trace[i].st| == |trace[0].st|)
    && (forall i {:trigger trace[i]} | 0 <= i < |trace| - 1 ::
          var t := Changed(trace[i], hows[i]);
          t.current != q && t.st[q].Ready? ==> trace[i + 1].current == t.current && trace[i + 1].st[q].Ready?)
  }

  lemma {:induction false} DispatchedWithinDistance(trace: seq<Sched>, hows: seq<Change>, q: nat)
    requires Changes(trace, hows, q) && trace != [] && 1 <= q && q != trace[0].current && trace[0].st[q].Ready?
    requires Distance(|trace[0].st|, trace[0].current, q) < |trace|
    ensures exists i | 0 <= i < |trace| :: Changed(trace[i], hows[i]).current == q
    decreases |trace|
  {
    ChangeComesCloser(trace[0], hows[0], q);
    hide Changed, Distance;
    if Changed(trace[0], hows[0]).current != q {
      var rest, later := trace[1..], hows[1..];
      assert forall i | 0 <= i < |rest| :: rest[i] == trace[i + 1] && later[i] == hows[i + 1];
      DispatchedWithinDistance(rest, later, q);
      var i :| 0 <= i < |rest| && Changed(rest[i], later[i]).current == q;
      assert Changed(trace[i + 1], hows[i + 1]).current == q;
    }
  }

  /** Fairness: among n contexts, one that stays READY is dispatched by one of the
      next n - 1 changes of the processor, be they ticks or exits and waits. */
  lemma DispatchedWithinRound(trace: seq<Sched>, hows: seq<Change>, q: nat)
    requires Changes(trace, hows, q) && trace != [] && 1 <= q && q != trace[0].current && trace[0].st[q].Ready?
    requires |trace| == |trace[0].st| - 1
    ensures exists i | 0 <= i < |trace| :: Changed(trace[i], hows[i]).current == q
  {
    DispatchedWithinDistance(trace, hows, q);
  }

  /** A context that a tick preempts is back on the processor within a round: it is
      READY when it goes, so one of the next n - 1 changes dispatches it. */
  lemma PreemptedComesBack(trace: seq<Sched>, hows: seq<Change>, q: nat)
    requires Changes(trace, hows, q) && trace != [] && 1 <= q == trace[0].current
    requires hows[0].ByTick? && Tick(trace[0]).current != q && |trace| == |trace[0].st|
    ensures exists i | 1 <= i < |trace| :: Changed(trace[i], hows[i]).current == q
  {
    TickExactly(trace[0]);
    assert trace[1].st[q].Ready? && trace[1].current != q by { assert trace[0 + 1] == trace[1]; }
    hide Tick, PickNow;
    var rest, later := trace[1..], hows[1..];
    assert forall i | 0 <= i < |rest| :: rest[i] == trace[i + 1] && later[i] == hows[i + 1];
    DispatchedWithinRound(rest, later, q);
    var i :| 0 <= i < |rest| && Changed(rest[i], later[i]).current == q;
    assert Changed(trace[i + 1], hows[i + 1]).current == q;
  }

  /** No context but the current one is RUNNING. */
  predicate OneRuns(s: Sched)
    requires Wf(s)
  {
    forall q | 0 <= q < |s.st| && q != s.current :: !s.st[q].Running?
  }

  lemma ChangeKeepsOneRuns(s: Sched, how: Change)
    requires Wf(s) && OneRuns(s) && (how.ByPick? ==> !s.st[s.current].Running?)
    ensures OneRuns(Changed(s, how))
  {
    if how.ByTick? {
      TickExactly(s);
    } else {
      PickExactly(s);
    }
    hide Tick, PickNow;
  }

  /** Between changes contexts may do anything to each other but make one run; and
      the current one gives its own RUNNING up before the next is picked. */
  predicate Orderly(trace: seq<Sched>, hows: seq<Change>) {
    && |hows| == |trace|
    && (forall i | 0 <= i < |trace| :: Wf(trace[i]))
    && (forall i | 0 <= i < |trace| && hows[i].ByPick? :: !trace[i].st[trace[i].current].Running?)
    && (forall i {:trigger trace[i]} | 0 <= i < |trace| - 1 ::
          var t := Changed(trace[i], hows[i]);
          && |trace[i + 1].st| == |t.st| && trace[i + 1].current == t.current
          && forall q | 0 <= q < |t.st| && q != t.current :: trace[i + 1].st[q].Running? ==> t.st[q].Running?)
  }

  /** At most one context is ever RUNNING. */
  lemma {:induction false} OneRunsAlways(trace: seq<Sched>, hows: seq<Change>, k: nat)
    requires Orderly(trace, hows) && k < |trace| && OneRuns(trace[0])
    ensures Wf(trace[k]) && OneRuns(trace[k]) && OneRuns(Changed(trace[k], hows[k]))
    decreases k
  {
    hide Changed, Orderly, OneRuns;
    assert Wf(trace[k]) by { OrderlyAt(trace, hows, k); }
    if k > 0 {
      OneRunsAlways(trace, hows, k - 1);
      OrderlyStep(trace, hows, k);
    }
    OrderlyAt(trace, hows, k);
    ChangeKeepsOneRuns(trace[k], hows[k]);
  }

  lemma OrderlyAt(trace: seq<Sched>, hows: seq<Change>, k: nat)
    requires Orderly(trace, hows) && k < |trace|
    ensures |hows| == |trace| && Wf(trace[k]) && (hows[k].ByPick? ==> !trace[k].st[trace[k].current].Running?)
  {
  }

  lemma OrderlyStep(trace: seq<Sched>, hows: seq<Change>, k: nat)
    requires Orderly(trace, hows) && 0 < k < |trace| && Wf(trace[k - 1]) && Wf(trace[k])
    requires OneRuns(Changed(trace[k - 1], hows[k - 1]))
    ensures OneRuns(trace[k])
  {
    var t := Changed(trace[k - 1], hows[k - 1]);
    assert trace[(k - 1) + 1] == trace[k];
    hide Changed;
    forall q | 0 <= q < |t.st| && q != t.current ensures !trace[k].st[q].Running? {
      assert !t.st[q].Running?;
    }
  }

  /** `k` ticks in a row. */
  function TickTimes(s: Sched, k: nat): (r: Sched)
    requires Wf(s)
    ensures Wf(r) && |r.st| == |s.st|
  {
    if k == 0 then s else Tick(TickTimes(s, k - 1))
  }

  /** What one tick does to a context that is waiting. */
  lemma TickOnWaiting(s: Sched, q: nat)
    requires Wf(s) && 1 <= q < |s.st| && q != s.current && s.st[q].Waiting?
    ensures var r := Tick(s);
            if s.sleep[q] == 1 then r.sleep[q] == 0 && (if r.current == q then r.st[q].Running? else r.st[q].Ready?)
            else r.st[q].Waiting? && r.current != q && r.sleep[q] == if s.sleep[q] == 0 then 0 else s.sleep[q] - 1
  {
    var b := Accounted(s).st[s.current := Ready];
    assert b[q] == Account(s.st[q], s.sleep[q]).0;
  }

  /** A context that sleeps for `t` ticks is still waiting before the t-th tick and
      READY, or already dispatched, after it. */
  lemma {:induction false} SleepsExactly(s: Sched, q: nat, k: nat)
    requires Wf(s) && 1 <= q < |s.st| && q != s.current && s.st[q].Waiting? && k <= s.sleep[q]
    ensures var r := TickTimes(s, k);
            && r.sleep[q] == s.sleep[q] - k
            && (k < s.sleep[q] || k == 0 ==> r.st[q].Waiting? && r.current != q)
            && (k == s.sleep[q] > 0 ==> if r.current == q then r.st[q].Running? else r.st[q].Ready?)
    decreases k
  {
    if k > 0 {
      SleepsExactly(s, q, k - 1);
      hide Tick;
      TickOnWaiting(TickTimes(s, k - 1), q);
    }
  }
}
