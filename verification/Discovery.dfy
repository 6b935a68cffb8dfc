/** `discover_paths` (src/walk.rs) as a step machine: a fork-join over the group tree
    under a counting semaphore. A schedule names, step by step, the task to advance. */
module Discovery {
  import opened Glob
  import opened GroupTrees
  import opened Wrappers

  /** `broken` are the groups whose open or child listing fails. `holdsWhileJoining` is
      the rejected variant that keeps its permit across the recursion. */
  datatype Config = Config(glob: Option<GlobPredicate>, broken: set<string>, holdsWhileJoining: bool)

  datatype Task =
    | Waiting(group: Group)                                    // queued on the semaphore
    | Holding(group: Group)                                    // opening and listing, with a permit
    | Joining(path: string, subs: seq<Task>, permit: bool)     // awaiting the children
    | Done(out: seq<string>)
    | Failed(path: string)

  predicate Finished(t: Task)
  {
    t.Done? || t.Failed?
  }

  /** One task per child the predicate lets through. */
  function StartAll(gs: seq<Group>, glob: Option<GlobPredicate>): seq<Task>
  {
    if gs == [] then []
    else if Keep(glob, gs[0].path) then [Waiting(gs[0])] + StartAll(gs[1..], glob)
    else StartAll(gs[1..], glob)
  }

  predicate AllDone(ts: seq<Task>)
  {
    forall i :: 0 <= i < |ts| ==> ts[i].Done?
  }

  function Collect(ts: seq<Task>): seq<string>
    requires AllDone(ts)
  {
    if ts == [] then [] else ts[0].out + Collect(ts[1..])
  }

  /** Permits held inside a task. */
  function Holders(t: Task): nat
  {
    match t
    case Holding(_) => 1
    case Joining(_, subs, permit) => (if permit then 1 else 0) + HoldersAll(subs)
    case _ => 0
  }

  function HoldersAll(ts: seq<Task>): nat
  {
    if ts == [] then 0 else Holders(ts[0]) + HoldersAll(ts[1..])
  }

  /** Advance the task at an address, if it can move: take a permit; finish the I/O and
      fork, or fail; join finished children; or pass a child's error up, cancelling its
      siblings and so returning the permits they held. */
  function Apply(cfg: Config, t: Task, free: nat, at: seq<nat>): Option<(Task, nat)>
  {
    match t
    case Waiting(g) =>
      if at == [] && free > 0 then Some((Holding(g), free - 1)) else None
    case Holding(g) =>
      if at != [] then None
      else if g.path in cfg.broken then Some((Failed(g.path), free + 1))
      else if cfg.holdsWhileJoining then Some((Joining(g.path, StartAll(g.children, cfg.glob), true), free))
      else Some((Joining(g.path, StartAll(g.children, cfg.glob), false), free + 1))
    case Joining(path, subs, permit) =>
      if at == [] then
        if AllDone(subs) then Some((Done([path] + Collect(subs)), free + if permit then 1 else 0)) else None
      else if at[0] >= |subs| then None
      else if |at| == 1 && subs[at[0]].Failed? then Some((Failed(subs[at[0]].path), free + Holders(t)))
      else
        var moved := Apply(cfg, subs[at[0]], free, at[1..]);
        if moved.None? then None
        else Some((Joining(path, subs[at[0] := moved.value.0], permit), moved.value.1))
    case _ => None
  }

  /** A whole schedule; `None` if some step of it is not enabled. */
  function Run(cfg: Config, t: Task, free: nat, schedule: seq<seq<nat>>): Option<(Task, nat)>
    decreases |schedule|
  {
    if schedule == [] then Some((t, free))
    else
      match Apply(cfg, t, free, schedule[0])
      case None => None
      case Some((t', free')) => Run(cfg, t', free', schedule[1..])
  }

  // ----- permits -----

  lemma {:induction false} HoldersUpdate(ts: seq<Task>, k: nat, t: Task)
    requires k < |ts|
    ensures HoldersAll(ts[k := t]) == HoldersAll(ts) - Holders(ts[k]) + Holders(t)
    ensures Holders(ts[k]) <= HoldersAll(ts)
  {
    if k == 0 {
      assert ts[0 := t][1..] == ts[1..];
    } else {
      HoldersUpdate(ts[1..], k - 1, t);
      assert ts[k := t][1..] == ts[1..][k - 1 := t];
    }
  }

  lemma {:induction false} StartedHoldNothing(gs: seq<Group>, glob: Option<GlobPredicate>)
    ensures HoldersAll(StartAll(gs, glob)) == 0
  {
    if gs == [] {
    } else {
      StartedHoldNothing(gs[1..], glob);
      if Keep(glob, gs[0].path) {
        assert StartAll(gs, glob)[1..] == StartAll(gs[1..], glob);
      }
    }
  }

  lemma {:induction false} DoneHoldNothing(ts: seq<Task>)
    requires AllDone(ts)
    ensures HoldersAll(ts) == 0
  {
    if ts == [] {
    } else {
      DoneHoldNothing(ts[1..]);
    }
  }

  /** Every step keeps free permits plus held permits. */
  lemma {:induction false} StepConservesPermits(cfg: Config, t: Task, free: nat, at: seq<nat>)
    requires Apply(cfg, t, free, at).Some?
    ensures var (t', free') := Apply(cfg, t, free, at).value; free' + Holders(t') == free + Holders(t)
    decreases t
  {
    match t
    case Holding(g) => StartedHoldNothing(g.children, cfg.glob);
    case Joining(path, subs, permit) =>
      if at == [] {
        DoneHoldNothing(subs);
      } else if !(|at| == 1 && subs[at[0]].Failed?) {
        StepConservesPermits(cfg, subs[at[0]], free, at[1..]);
        HoldersUpdate(subs, at[0], Apply(cfg, subs[at[0]], free, at[1..]).value.0);
      }
    case _ =>
  }

  // ----- no holder waits -----

  /** A task that awaits others holds no permit. */
  ghost predicate JoinersHoldNothing(t: Task)
  {
    t.Joining? ==> !t.permit && forall s | s in t.subs :: JoinersHoldNothing(s)
  }

  lemma {:induction false} StartedAreWaiting(gs: seq<Group>, glob: Option<GlobPredicate>)
    ensures forall s | s in StartAll(gs, glob) :: s.Waiting?
  {
    if gs == [] {
    } else {
      StartedAreWaiting(gs[1..], glob);
    }
  }

  lemma {:induction false} StepKeepsJoinersEmptyHanded(cfg: Config, t: Task, free: nat, at: seq<nat>)
    requires !cfg.holdsWhileJoining && JoinersHoldNothing(t) && Apply(cfg, t, free, at).Some?
    ensures JoinersHoldNothing(Apply(cfg, t, free, at).value.0)
    decreases t
  {
    match t
    case Holding(g) => StartedAreWaiting(g.children, cfg.glob);
    case Joining(path, subs, permit) =>
      if at != [] && !(|at| == 1 && subs[at[0]].Failed?) {
        StepKeepsJoinersEmptyHanded(cfg, subs[at[0]], free, at[1..]);
      }
    case _ =>
  }

  // ----- progress -----

  lemma {:induction false} SomeHolder(ts: seq<Task>) returns (k: nat)
    requires HoldersAll(ts) > 0
    ensures k < |ts| && Holders(ts[k]) > 0
  {
    if Holders(ts[0]) > 0 {
      k := 0;
    } else {
      var i := SomeHolder(ts[1..]);
      k := i + 1;
    }
  }

  /** A task that is not finished can move somewhere, as long as a permit is free or is
      held by a task that is not itself waiting for others. */
  lemma {:induction false} SomeStepEnabled(cfg: Config, t: Task, free: nat) returns (at: seq<nat>)
    requires !Finished(t) && (free > 0 || (JoinersHoldNothing(t) && Holders(t) > 0))
    ensures Apply(cfg, t, free, at).Some?
    decreases t
  {
    match t
    case Joining(path, subs, permit) =>
      if k: nat :| k < |subs| && subs[k].Failed? {
        at := [k];
      } else if AllDone(subs) {
        at := [];
      } else {
        var k: nat;
        if free > 0 {
          k :| 0 <= k < |subs| && !subs[k].Done?;
        } else {
          k := SomeHolder(subs);
        }
        var rest := SomeStepEnabled(cfg, subs[k], free);
        at := [k] + rest;
        assert at[1..] == rest;
      }
    case _ => at := [];
  }

  // ----- termination -----

  /** Steps a task can still take: three per group it has yet to visit. */
  function Remaining(glob: Option<GlobPredicate>, t: Task): nat
  {
    match t
    case Waiting(g) => 3 * |PreOrder(Prune(g, glob))|
    case Holding(g) => 3 * |PreOrder(Prune(g, glob))| - 1
    case Joining(_, subs, _) => 1 + RemainingAll(glob, subs)
    case _ => 0
  }

  function RemainingAll(glob: Option<GlobPredicate>, ts: seq<Task>): nat
  {
    if ts == [] then 0 else Remaining(glob, ts[0]) + RemainingAll(glob, ts[1..])
  }

  lemma {:induction false} RemainingUpdate(glob: Option<GlobPredicate>, ts: seq<Task>, k: nat, t: Task)
    requires k < |ts|
    ensures RemainingAll(glob, ts[k := t]) == RemainingAll(glob, ts) - Remaining(glob, ts[k]) + Remaining(glob, t)
  {
    if k == 0 {
      assert ts[0 := t][1..] == ts[1..];
    } else {
      RemainingUpdate(glob, ts[1..], k - 1, t);
      assert ts[k := t][1..] == ts[1..][k - 1 := t];
    }
  }

  lemma {:induction false} RemainingStarted(gs: seq<Group>, glob: Option<GlobPredicate>)
    ensures RemainingAll(glob, StartAll(gs, glob)) == 3 * |PreOrderAll(PruneAll(gs, glob))|
  {
    if gs == [] {
    } else {
      RemainingStarted(gs[1..], glob);
      if Keep(glob, gs[0].path) {
        assert StartAll(gs, glob)[1..] == StartAll(gs[1..], glob);
        assert PruneAll(gs, glob)[1..] == PruneAll(gs[1..], glob);
      }
    }
  }

  lemma {:induction false} StepUsesUpWork(cfg: Config, t: Task, free: nat, at: seq<nat>)
    requires Apply(cfg, t, free, at).Some?
    ensures Remaining(cfg.glob, Apply(cfg, t, free, at).value.0) < Remaining(cfg.glob, t)
    decreases t
  {
    match t
    case Holding(g) => RemainingStarted(g.children, cfg.glob);
    case Joining(path, subs, permit) =>
      if at != [] && !(|at| == 1 && subs[at[0]].Failed?) {
        StepUsesUpWork(cfg, subs[at[0]], free, at[1..]);
        RemainingUpdate(cfg.glob, subs, at[0], Apply(cfg, subs[at[0]], free, at[1..]).value.0);
      }
    case _ =>
  }

  // ----- the result does not depend on the schedule -----

  /** What a task will have listed once it and everything below it is done. */
  function Promise(glob: Option<GlobPredicate>, t: Task): seq<string>
  {
    match t
    case Waiting(g) => PreOrder(Prune(g, glob))
    case Holding(g) => PreOrder(Prune(g, glob))
    case Joining(path, subs, _) => [path] + PromiseAll(glob, subs)
    case Done(out) => out
    case Failed(path) => [path]
  }

  function PromiseAll(glob: Option<GlobPredicate>, ts: seq<Task>): seq<string>
  {
    if ts == [] then [] else Promise(glob, ts[0]) + PromiseAll(glob, ts[1..])
  }

  lemma {:induction false} PromiseUpdate(glob: Option<GlobPredicate>, ts: seq<Task>, k: nat, t: Task)
    requires k < |ts|
    ensures Promise(glob, t) == Promise(glob, ts[k]) ==> PromiseAll(glob, ts[k := t]) == PromiseAll(glob, ts)
    ensures (forall p | p in Promise(glob, t) :: p in Promise(glob, ts[k])) ==>
              forall p | p in PromiseAll(glob, ts[k := t]) :: p in PromiseAll(glob, ts)
    ensures forall p | p in Promise(glob, ts[k]) :: p in PromiseAll(glob, ts)
  {
    if k == 0 {
      assert ts[0 := t][1..] == ts[1..];
    } else {
      PromiseUpdate(glob, ts[1..], k - 1, t);
      assert ts[k := t][1..] == ts[1..][k - 1 := t];
    }
  }

  lemma {:induction false} PromiseStarted(gs: seq<Group>, glob: Option<GlobPredicate>)
    ensures PromiseAll(glob, StartAll(gs, glob)) == PreOrderAll(PruneAll(gs, glob))
  {
    if gs == [] {
    } else {
      PromiseStarted(gs[1..], glob);
      if Keep(glob, gs[0].path) {
        assert StartAll(gs, glob)[1..] == StartAll(gs[1..], glob);
        assert PruneAll(gs, glob)[1..] == PruneAll(gs[1..], glob);
      }
    }
  }

  lemma {:induction false} PromiseCollected(glob: Option<GlobPredicate>, ts: seq<Task>)
    requires AllDone(ts)
    ensures PromiseAll(glob, ts) == Collect(ts)
  {
    if ts == [] {
    } else {
      PromiseCollected(glob, ts[1..]);
    }
  }

  ghost predicate Intact(t: Task)
  {
    match t
    case Joining(_, subs, _) => forall s | s in subs :: Intact(s)
    case Failed(_) => false
    case _ => true
  }

  /** The promise is kept by every step of a run without failures, and shrinks otherwise. */
  lemma {:induction false} StepKeepsPromise(cfg: Config, t: Task, free: nat, at: seq<nat>)
    requires Apply(cfg, t, free, at).Some?
    ensures var t' := Apply(cfg, t, free, at).value.0;
            && (Intact(t') ==> Intact(t) && Promise(cfg.glob, t') == Promise(cfg.glob, t))
            && forall p | p in Promise(cfg.glob, t') :: p in Promise(cfg.glob, t)
    decreases t
  {
    match t
    case Holding(g) => PromiseStarted(g.children, cfg.glob);
    case Joining(path, subs, permit) =>
      if at == [] {
        PromiseCollected(cfg.glob, subs);
      } else {
        var k := at[0];
        if |at| == 1 && subs[k].Failed? {
          PromiseUpdate(cfg.glob, subs, k, subs[k]);
        } else {
          var sub := Apply(cfg, subs[k], free, at[1..]).value.0;
          StepKeepsPromise(cfg, subs[k], free, at[1..]);
          PromiseUpdate(cfg.glob, subs, k, sub);
          assert subs[k := sub][k] == sub;
          assert forall i :: 0 <= i < |subs| && i != k ==> subs[k := sub][i] == subs[i];
        }
      }
    case _ =>
  }

  /** Only broken groups are blamed, and only sound ones are listed. */
  ghost predicate Truthful(broken: set<string>, t: Task)
  {
    match t
    case Joining(path, subs, _) => path !in broken && forall s | s in subs :: Truthful(broken, s)
    case Done(out) => forall p | p in out :: p !in broken
    case Failed(path) => path in broken
    case _ => true
  }

  lemma {:induction false} CollectTruthful(broken: set<string>, ts: seq<Task>)
    requires AllDone(ts) && forall t | t in ts :: Truthful(broken, t)
    ensures forall p | p in Collect(ts) :: p !in broken
  {
    if ts == [] {
    } else {
      assert Truthful(broken, ts[0]);
      CollectTruthful(broken, ts[1..]);
    }
  }

  lemma {:induction false} StepKeepsTruthful(cfg: Config, t: Task, free: nat, at: seq<nat>)
    requires Truthful(cfg.broken, t) && Apply(cfg, t, free, at).Some?
    ensures Truthful(cfg.broken, Apply(cfg, t, free, at).value.0)
    decreases t
  {
    match t
    case Holding(g) => StartedAreWaiting(g.children, cfg.glob);
    case Joining(path, subs, permit) =>
      if at == [] {
        CollectTruthful(cfg.broken, subs);
      } else if !(|at| == 1 && subs[at[0]].Failed?) {
        StepKeepsTruthful(cfg, subs[at[0]], free, at[1..]);
      }
    case _ =>
  }

  // ----- all schedules -----

  /** What every reachable state satisfies. */
  ghost predicate Invariant(cfg: Config, start: Task, permits: nat, t: Task, free: nat)
  {
    && free + Holders(t) == permits
    && (!cfg.holdsWhileJoining ==> JoinersHoldNothing(t))
    && Truthful(cfg.broken, t)
    && (Intact(t) ==> Promise(cfg.glob, t) == Promise(cfg.glob, start))
    && (forall p | p in Promise(cfg.glob, t) :: p in Promise(cfg.glob, start))
  }

  lemma {:induction false} StepKeepsInvariant(cfg: Config, start: Task, permits: nat, t: Task, free: nat,
                                              at: seq<nat>)
    requires Invariant(cfg, start, permits, t, free) && Apply(cfg, t, free, at).Some?
    ensures var (t', free') := Apply(cfg, t, free, at).value; Invariant(cfg, start, permits, t', free')
  {
    StepConservesPermits(cfg, t, free, at);
    if !cfg.holdsWhileJoining {
      StepKeepsJoinersEmptyHanded(cfg, t, free, at);
    }
    StepKeepsTruthful(cfg, t, free, at);
    StepKeepsPromise(cfg, t, free, at);
  }

  lemma {:induction false} RunKeepsInvariant(cfg: Config, start: Task, permits: nat, t: Task, free: nat,
                                             schedule: seq<seq<nat>>)
    requires Invariant(cfg, start, permits, t, free) && Run(cfg, t, free, schedule).Some?
    ensures var (t', free') := Run(cfg, t, free, schedule).value;
            && Invariant(cfg, start, permits, t', free')
            && |schedule| + Remaining(cfg.glob, t') <= Remaining(cfg.glob, t)
    decreases |schedule|
  {
    if schedule == [] {
    } else {
      var at := schedule[0];
      var (t1, free1) := Apply(cfg, t, free, at).value;
      StepKeepsInvariant(cfg, start, permits, t, free, at);
      StepUsesUpWork(cfg, t, free, at);
      RunKeepsInvariant(cfg, start, permits, t1, free1, schedule[1..]);
    }
  }

  /** Every reachable state of the walk: permits are conserved, no task holds one while
      it awaits others, some step is enabled until the walk is over, and no schedule is
      longer than three steps per visited group. */
  lemma {:induction false} WalkIsSafeAndLive(cfg: Config, g: Group, permits: nat, schedule: seq<seq<nat>>)
    requires !cfg.holdsWhileJoining && permits >= 1 && Run(cfg, Waiting(g), permits, schedule).Some?
    ensures var (t, free) := Run(cfg, Waiting(g), permits, schedule).value;
            && free + Holders(t) == permits
            && JoinersHoldNothing(t)
            && (Finished(t) || exists at :: Apply(cfg, t, free, at).Some?)
            && |schedule| <= 3 * |PreOrder(Prune(g, cfg.glob))|
  {
    RunKeepsInvariant(cfg, Waiting(g), permits, Waiting(g), permits, schedule);
    var (t, free) := Run(cfg, Waiting(g), permits, schedule).value;
    if !Finished(t) {
      var at := SomeStepEnabled(cfg, t, free);
    }
  }

  /** Whatever the schedule and the number of permits, a finished walk has given every
      permit back and either lists the pruned tree in pre-order, all of it sound, or
      fails with a broken group of that tree. */
  lemma {:induction false} WalkResultIsDetermined(cfg: Config, g: Group, permits: nat, schedule: seq<seq<nat>>)
    requires Run(cfg, Waiting(g), permits, schedule).Some?
    requires Finished(Run(cfg, Waiting(g), permits, schedule).value.0)
    ensures var (t, free) := Run(cfg, Waiting(g), permits, schedule).value;
            var visited := PreOrder(Prune(g, cfg.glob));
            && free == permits
            && (t.Done? <==> forall p | p in visited :: p !in cfg.broken)
            && (t.Done? ==> t.out == visited)
            && (t.Failed? ==> t.path in cfg.broken && t.path in visited)
  {
    RunKeepsInvariant(cfg, Waiting(g), permits, Waiting(g), permits, schedule);
    var t := Run(cfg, Waiting(g), permits, schedule).value.0;
    if t.Failed? {
      assert t.path in Promise(cfg.glob, t);
    }
  }

  lemma {:induction false} RunConcat(cfg: Config, t: Task, free: nat, a: seq<seq<nat>>, b: seq<seq<nat>>)
    requires Run(cfg, t, free, a).Some?
    ensures var (t1, free1) := Run(cfg, t, free, a).value;
            Run(cfg, t, free, a + b) == Run(cfg, t1, free1, b)
    decreases |a|
  {
    if a == [] {
      assert a + b == b;
    } else {
      var (t1, free1) := Apply(cfg, t, free, a[0]).value;
      RunConcat(cfg, t1, free1, a[1..], b);
      assert (a + b)[1..] == a[1..] + b;
    }
  }

  lemma {:induction false} RunPrefix(cfg: Config, t: Task, free: nat, schedule: seq<seq<nat>>, n: nat)
    requires Run(cfg, t, free, schedule).Some? && n <= |schedule|
    ensures Run(cfg, t, free, schedule[..n]).Some?
    decreases |schedule|
  {
    if n == 0 {
    } else {
      var (t1, free1) := Apply(cfg, t, free, schedule[0]).value;
      RunPrefix(cfg, t1, free1, schedule[1..], n - 1);
      assert schedule[..n][1..] == schedule[1..][..n - 1];
    }
  }

  /** At no point of the schedule are more groups being opened than there are permits. */
  ghost predicate OpensBounded(cfg: Config, g: Group, permits: nat, schedule: seq<seq<nat>>)
  {
    forall n :: 0 <= n <= |schedule| ==>
                  var end := Run(cfg, Waiting(g), permits, schedule[..n]);
                  end.Some? && Holders(end.value.0) <= permits
  }

  lemma {:induction false} OpensAreBounded(cfg: Config, g: Group, permits: nat, schedule: seq<seq<nat>>)
    requires Run(cfg, Waiting(g), permits, schedule).Some?
    ensures OpensBounded(cfg, g, permits, schedule)
  {
    forall n | 0 <= n <= |schedule|
      ensures Run(cfg, Waiting(g), permits, schedule[..n]).Some?
      ensures Holders(Run(cfg, Waiting(g), permits, schedule[..n]).value.0) <= permits
    {
      RunPrefix(cfg, Waiting(g), permits, schedule, n);
      RunKeepsInvariant(cfg, Waiting(g), permits, Waiting(g), permits, schedule[..n]);
    }
  }

  lemma {:induction false} RunOneMore(cfg: Config, t: Task, free: nat, schedule: seq<seq<nat>>, t1: Task, free1: nat,
                                      at: seq<nat>)
    requires Run(cfg, t, free, schedule) == Some((t1, free1)) && Apply(cfg, t1, free1, at).Some?
    ensures Run(cfg, t, free, schedule + [at]) == Apply(cfg, t1, free1, at)
  {
    RunConcat(cfg, t, free, schedule, [at]);
    assert [at][1..] == [];
  }

  /** `discover_paths`: whichever enabled step the runtime picks next, the walk ends with
      the pruned tree in pre-order, or with the path of a broken group in it. */
  method DiscoverPaths(g: Group, glob: Option<GlobPredicate>, broken: set<string>, permits: nat)
    returns (r: Result<seq<string>, string>, ghost schedule: seq<seq<nat>>)
    requires permits >= 1
    ensures r.Success? <==> forall p | p in PreOrder(Prune(g, glob)) :: p !in broken
    ensures r.Success? ==> r.value == PreOrder(Prune(g, glob))
    ensures r.Failure? ==> r.error in broken && r.error in PreOrder(Prune(g, glob))
    ensures OpensBounded(Config(glob, broken, false), g, permits, schedule)
  {
    var cfg := Config(glob, broken, false);
    var t, free: nat := Waiting(g), permits;
    schedule := [];
    while !Finished(t)
      invariant Invariant(cfg, Waiting(g), permits, t, free)
      invariant Run(cfg, Waiting(g), permits, schedule) == Some((t, free))
      decreases Remaining(glob, t)
    {
      ghost var some := SomeStepEnabled(cfg, t, free);
      var at :| Apply(cfg, t, free, at).Some?;
      StepKeepsInvariant(cfg, Waiting(g), permits, t, free, at);
      StepUsesUpWork(cfg, t, free, at);
      RunOneMore(cfg, Waiting(g), permits, schedule, t, free, at);
      var next := Apply(cfg, t, free, at).value;
      t, free := next.0, next.1;
      schedule := schedule + [at];
    }
    OpensAreBounded(cfg, g, permits, schedule);
    if t.Failed? {
      assert t.path in Promise(glob, t);
      r := Failure(t.path);
    } else {
      r := Success(t.out);
    }
  }
}
