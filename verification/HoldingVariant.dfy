/** Why `discover_paths` gives its permit back before recursing (src/walk.rs:483-488):
    exactly when the variant that keeps it can deadlock. */
module HoldingVariant {
  import opened Discovery
  import opened GroupTrees
  import opened Wrappers

  /** Groups with at least one child that the walk can get to join at: neither the group
      nor one above it is broken. */
  function Internal(g: Group, broken: set<string>): nat
    decreases g
  {
    if g.path in broken || g.children == [] then 0 else 1 + InternalAll(g.children, broken)
  }

  function InternalAll(gs: seq<Group>, broken: set<string>): nat
    decreases gs
  {
    if gs == [] then 0 else Internal(gs[0], broken) + InternalAll(gs[1..], broken)
  }

  ghost predicate Stuck(cfg: Config, t: Task, free: nat)
  {
    !Finished(t) && forall at :: Apply(cfg, t, free, at).None?
  }

  ghost predicate DeadlocksBy(cfg: Config, g: Group, permits: nat, schedule: seq<seq<nat>>)
  {
    var end := Run(cfg, Waiting(g), permits, schedule);
    end.Some? && Stuck(cfg, end.value.0, end.value.1)
  }

  ghost predicate CanDeadlock(cfg: Config, g: Group, permits: nat)
  {
    exists schedule :: DeadlocksBy(cfg, g, permits, schedule)
  }

  // ----- a deadlock needs as many internal groups as permits -----

  /** Internal groups a task is, or may yet come to be, joining at. */
  function Joins(cfg: Config, t: Task): nat
  {
    match t
    case Waiting(g) => Internal(Prune(g, cfg.glob), cfg.broken)
    case Holding(g) => Internal(Prune(g, cfg.glob), cfg.broken)
    case Joining(_, subs, _) => if subs == [] then 0 else 1 + JoinsAll(cfg, subs)
    case _ => 0
  }

  function JoinsAll(cfg: Config, ts: seq<Task>): nat
  {
    if ts == [] then 0 else Joins(cfg, ts[0]) + JoinsAll(cfg, ts[1..])
  }

  lemma {:induction false} JoinsStarted(cfg: Config, gs: seq<Group>)
    ensures JoinsAll(cfg, StartAll(gs, cfg.glob)) == InternalAll(PruneAll(gs, cfg.glob), cfg.broken)
    ensures |StartAll(gs, cfg.glob)| == |PruneAll(gs, cfg.glob)|
  {
    if gs == [] {
    } else {
      JoinsStarted(cfg, gs[1..]);
    }
  }

  lemma {:induction false} JoinsUpdate(cfg: Config, ts: seq<Task>, k: nat, t: Task)
    requires k < |ts| && Joins(cfg, t) <= Joins(cfg, ts[k])
    ensures JoinsAll(cfg, ts[k := t]) <= JoinsAll(cfg, ts)
  {
    if k == 0 {
      assert ts[0 := t][1..] == ts[1..];
    } else {
      JoinsUpdate(cfg, ts[1..], k - 1, t);
      assert ts[k := t][1..] == ts[1..][k - 1 := t];
    }
  }

  lemma {:induction false} StepKeepsJoins(cfg: Config, t: Task, free: nat, at: seq<nat>)
    requires Apply(cfg, t, free, at).Some?
    ensures Joins(cfg, Apply(cfg, t, free, at).value.0) <= Joins(cfg, t)
    decreases t
  {
    match t
    case Holding(g) => JoinsStarted(cfg, g.children);
    case Joining(path, subs, permit) =>
      if at != [] && !(|at| == 1 && subs[at[0]].Failed?) {
        StepKeepsJoins(cfg, subs[at[0]], free, at[1..]);
        JoinsUpdate(cfg, subs, at[0], Apply(cfg, subs[at[0]], free, at[1..]).value.0);
      }
    case _ =>
  }

  lemma {:induction false} RunKeepsJoins(cfg: Config, t: Task, free: nat, schedule: seq<seq<nat>>)
    requires Run(cfg, t, free, schedule).Some?
    ensures var (t', free') := Run(cfg, t, free, schedule).value;
            Joins(cfg, t') <= Joins(cfg, t) && free' + Holders(t') == free + Holders(t)
    decreases |schedule|
  {
    if schedule == [] {
    } else {
      StepKeepsJoins(cfg, t, free, schedule[0]);
      StepConservesPermits(cfg, t, free, schedule[0]);
      var (t1, free1) := Apply(cfg, t, free, schedule[0]).value;
      RunKeepsJoins(cfg, t1, free1, schedule[1..]);
    }
  }

  /** Every permit held is held by a task that awaits at least one child. */
  ghost predicate OnlyJoinersHold(t: Task)
  {
    match t
    case Holding(_) => false
    case Joining(_, subs, permit) => (permit ==> subs != []) && forall s | s in subs :: OnlyJoinersHold(s)
    case _ => true
  }

  /** In a stuck state only tasks that await children hold permits, so there are no more
      permits held than groups to join at. */
  lemma {:induction false} StuckHoldersJoin(cfg: Config, t: Task, free: nat)
    requires forall at :: Apply(cfg, t, free, at).None?
    ensures OnlyJoinersHold(t) && Holders(t) <= Joins(cfg, t)
    decreases t
  {
    var here: seq<nat> := [];
    var blocked := Apply(cfg, t, free, here);
    if t.Joining? {
      assert blocked.None?;
      StuckSubsJoin(cfg, t, free, 0);
      assert t.subs[0..] == t.subs;
    }
  }

  lemma {:induction false} StuckSubsJoin(cfg: Config, t: Task, free: nat, k: nat)
    requires t.Joining? && k <= |t.subs| && forall at :: Apply(cfg, t, free, at).None?
    ensures HoldersAll(t.subs[k..]) <= JoinsAll(cfg, t.subs[k..])
    ensures forall i :: k <= i < |t.subs| ==> OnlyJoinersHold(t.subs[i])
    decreases t, 0, |t.subs| - k
  {
    if k < |t.subs| {
      forall rest: seq<nat> ensures Apply(cfg, t.subs[k], free, rest).None? {
        var at := [k] + rest;
        assert at[1..] == rest && Apply(cfg, t, free, at).None?;
      }
      StuckHoldersJoin(cfg, t.subs[k], free);
      StuckSubsJoin(cfg, t, free, k + 1);
      assert t.subs[k..][1..] == t.subs[k + 1..];
    }
  }

  // ----- and that many suffice -----

  /** Every permit-holding task awaits children that are themselves waiting for one. */
  ghost predicate Jammed(t: Task)
  {
    match t
    case Waiting(_) => true
    case Joining(_, subs, permit) => permit && subs != [] && forall s | s in subs :: Jammed(s)
    case _ => false
  }

  lemma {:induction false} JammedIsStuck(cfg: Config, t: Task, at: seq<nat>)
    requires Jammed(t)
    ensures Apply(cfg, t, 0, at).None?
    decreases t
  {
    if t.Joining? {
      assert Jammed(t.subs[0]);
      if at != [] && at[0] < |t.subs| {
        assert Jammed(t.subs[at[0]]);
        JammedIsStuck(cfg, t.subs[at[0]], at[1..]);
      }
    }
  }

  function Lifted(k: nat, schedule: seq<seq<nat>>): (r: seq<seq<nat>>)
    ensures |r| == |schedule|
  {
    seq(|schedule|, i requires 0 <= i < |schedule| => [k] + schedule[i])
  }

  /** A child's run is a run of its parent. */
  lemma {:induction false} LiftRun(cfg: Config, t: Task, k: nat, free: nat, schedule: seq<seq<nat>>)
    requires t.Joining? && k < |t.subs| && Run(cfg, t.subs[k], free, schedule).Some?
    ensures var (sub, free') := Run(cfg, t.subs[k], free, schedule).value;
            Run(cfg, t, free, Lifted(k, schedule)) == Some((t.(subs := t.subs[k := sub]), free'))
    decreases |schedule|
  {
    if schedule == [] {
      assert t.subs[k := t.subs[k]] == t.subs;
    } else {
      var lifted := Lifted(k, schedule);
      var (sub1, free1) := Apply(cfg, t.subs[k], free, schedule[0]).value;
      var t1 := t.(subs := t.subs[k := sub1]);
      assert lifted[0][1..] == schedule[0];
      assert Apply(cfg, t, free, lifted[0]) == Some((t1, free1));
      LiftRun(cfg, t1, k, free1, schedule[1..]);
      assert lifted[1..] == Lifted(k, schedule[1..]);
      var sub := Run(cfg, sub1, free1, schedule[1..]).value.0;
      assert t1.subs[k := sub] == t.subs[k := sub];
    }
  }

  ghost predicate RunsTo(cfg: Config, t: Task, free: nat, schedule: seq<seq<nat>>, t': Task, free': int)
  {
    var end := Run(cfg, t, free, schedule);
    end.Some? && end.value.0 == t' && end.value.1 == free'
  }

  /** A child's run, then a run of the parent with the child where it got to. */
  lemma {:induction false} LiftThenRun(cfg: Config, t: Task, k: nat, free: nat, first: seq<seq<nat>>, sub: Task,
                                       free1: nat,
                                       rest: seq<seq<nat>>, t': Task, free': int)
    requires t.Joining? && k < |t.subs| && RunsTo(cfg, t.subs[k], free, first, sub, free1)
    requires RunsTo(cfg, t.(subs := t.subs[k := sub]), free1, rest, t', free')
    ensures RunsTo(cfg, t, free, Lifted(k, first) + rest, t', free')
  {
    LiftRun(cfg, t, k, free, first);
    RunConcat(cfg, t, free, Lifted(k, first), rest);
  }

  /** Park a permit at each of `k` internal groups, parents first. */
  lemma {:induction false} Jam(cfg: Config, g: Group, k: nat, free: nat) returns (schedule: seq<seq<nat>>, t: Task)
    requires cfg.holdsWhileJoining && k <= Internal(Prune(g, cfg.glob), cfg.broken) && k <= free
    ensures Parks(cfg, Waiting(g), free, k, schedule, t)
    decreases g
  {
    if k == 0 {
      schedule, t := [], Waiting(g);
    } else {
      JoinsStarted(cfg, g.children);
      var forked := Joining(g.path, StartAll(g.children, cfg.glob), true);
      var start: seq<seq<nat>> := [[], []];
      assert start[1..][1..] == [];
      assert Apply(cfg, Holding(g), free - 1, []) == Some((forked, free - 1));
      assert Run(cfg, Holding(g), free - 1, start[1..]) == Some((forked, free - 1));
      assert Run(cfg, Waiting(g), free, start) == Some((forked, free - 1));
      StartedAreWaiting(g.children, cfg.glob);
      var rest;
      rest, t := JamChildren(cfg, g.children, forked, 0, k - 1, free - 1);
      RunConcat(cfg, Waiting(g), free, start, rest);
      schedule := start + rest;
    }
  }

  /** A forked parent whose tasks from the `i`-th on have just been started, for `gs`. */
  ghost predicate Forked(cfg: Config, gs: seq<Group>, t: Task, i: nat)
  {
    && t.Joining? && Jammed(t)
    && i <= |t.subs| && t.subs[i..] == StartAll(gs, cfg.glob)
  }

  /** The first of the groups still to be dealt with. */
  lemma {:induction false} ForkedFirst(cfg: Config, gs: seq<Group>, t: Task, i: nat)
    requires gs != [] && Keep(cfg.glob, gs[0].path) && Forked(cfg, gs, t, i)
    ensures i < |t.subs| && t.subs[i] == Waiting(gs[0])
    ensures InternalAll(PruneAll(gs, cfg.glob), cfg.broken) ==
            Internal(Prune(gs[0], cfg.glob), cfg.broken) + InternalAll(PruneAll(gs[1..], cfg.glob), cfg.broken)
  {
    var pruned := PruneAll(gs, cfg.glob);
    assert pruned[1..] == PruneAll(gs[1..], cfg.glob);
    assert t.subs[i] == t.subs[i..][0];
  }

  /** And the others, once the first has jammed. */
  lemma {:induction false} ForkedRest(cfg: Config, gs: seq<Group>, t: Task, i: nat, sub: Task)
    requires gs != [] && Keep(cfg.glob, gs[0].path) && Forked(cfg, gs, t, i) && i < |t.subs| && Jammed(sub)
    ensures Forked(cfg, gs[1..], t.(subs := t.subs[i := sub]), i + 1)
  {
    assert t.subs[i := sub][i + 1..] == t.subs[i..][1..];
  }

  /** Running `t` parks `k` of the free permits and ends jammed. */
  ghost predicate Parks(cfg: Config, t: Task, free: nat, k: nat, schedule: seq<seq<nat>>, t': Task)
  {
    k <= free && RunsTo(cfg, t, free, schedule, t', free - k) && Jammed(t')
  }

  /** Parking `here` permits below one child and the others below the rest. */
  lemma {:induction false} ParkBoth(cfg: Config, t: Task, i: nat, free: nat, here: nat, first: seq<seq<nat>>,
                                    sub: Task, more: nat, rest: seq<seq<nat>>, t': Task)
    requires t.Joining? && i < |t.subs| && Parks(cfg, t.subs[i], free, here, first, sub)
    requires Parks(cfg, t.(subs := t.subs[i := sub]), free - here, more, rest, t')
    ensures Parks(cfg, t, free, here + more, Lifted(i, first) + rest, t')
  {
    LiftThenRun(cfg, t, i, free, first, sub, free - here, rest, t', free - here - more);
  }

  /** Park `k` permits below a forked parent. */
  lemma {:induction false} JamChildren(cfg: Config, gs: seq<Group>, t: Task, i: nat, k: nat, free: nat)
    returns (schedule: seq<seq<nat>>, t': Task)
    requires cfg.holdsWhileJoining && Forked(cfg, gs, t, i)
    requires k <= free && k <= InternalAll(PruneAll(gs, cfg.glob), cfg.broken)
    ensures Parks(cfg, t, free, k, schedule, t')
    decreases gs
  {
    if gs == [] {
      schedule, t' := [], t;
    } else if !Keep(cfg.glob, gs[0].path) {
      schedule, t' := JamChildren(cfg, gs[1..], t, i, k, free);
    } else {
      ForkedFirst(cfg, gs, t, i);
      var most := Internal(Prune(gs[0], cfg.glob), cfg.broken);
      var here := if k <= most then k else most;
      var first, sub := Jam(cfg, gs[0], here, free);
      ForkedRest(cfg, gs, t, i, sub);
      var rest;
      rest, t' := JamChildren(cfg, gs[1..], t.(subs := t.subs[i := sub]), i + 1, k - here, free - here);
      ParkBoth(cfg, t, i, free, here, first, sub, k - here, rest, t');
      schedule := Lifted(i, first) + rest;
    }
  }

  /** Holding the permit across the recursion can deadlock if and only if the visited
      tree has at least as many internal groups as there are permits. */
  lemma {:induction false} HoldingDeadlocksIff(cfg: Config, g: Group, permits: nat)
    requires cfg.holdsWhileJoining
    ensures CanDeadlock(cfg, g, permits) <==> permits <= Internal(Prune(g, cfg.glob), cfg.broken)
  {
    if permits <= Internal(Prune(g, cfg.glob), cfg.broken) {
      var schedule, t := Jam(cfg, g, permits, permits);
      forall at ensures Apply(cfg, t, 0, at).None? {
        JammedIsStuck(cfg, t, at);
      }
      assert DeadlocksBy(cfg, g, permits, schedule);
    }
    if schedule :| DeadlocksBy(cfg, g, permits, schedule) {
      var (t, free) := Run(cfg, Waiting(g), permits, schedule).value;
      RunKeepsJoins(cfg, Waiting(g), permits, schedule);
      StuckHoldersJoin(cfg, t, free);
      if free > 0 {
        var at := SomeStepEnabled(cfg, t, free);
      }
    }
  }

  /** Levels of the tree; a lone group has depth 1. */
  function Depth(g: Group): (d: nat)
    ensures d >= 1
    decreases g
  {
    1 + DeepestOf(g.children)
  }

  function DeepestOf(gs: seq<Group>): nat
    decreases gs
  {
    if gs == [] then 0
    else
      var d, rest := Depth(gs[0]), DeepestOf(gs[1..]);
      if d >= rest then d else rest
  }

  ghost predicate NoneBroken(cfg: Config, g: Group)
  {
    forall p | p in PreOrder(Prune(g, cfg.glob)) :: p !in cfg.broken
  }

  lemma {:induction false} DepthNeedsInternal(g: Group, broken: set<string>)
    requires forall p | p in PreOrder(g) :: p !in broken
    ensures Depth(g) <= Internal(g, broken) + 1
    decreases g
  {
    DeepestNeedsInternal(g.children, broken);
  }

  lemma {:induction false} DeepestNeedsInternal(gs: seq<Group>, broken: set<string>)
    requires forall p | p in PreOrderAll(gs) :: p !in broken
    ensures DeepestOf(gs) <= InternalAll(gs, broken) + if gs == [] then 0 else 1
    decreases gs
  {
    if gs == [] {
    } else {
      DepthNeedsInternal(gs[0], broken);
      DeepestNeedsInternal(gs[1..], broken);
    }
  }

  /** In particular, with nothing broken, at any number of permits smaller than the tree
      depth. */
  lemma {:induction false} HoldingDeadlocksBelowDepth(cfg: Config, g: Group, permits: nat)
    requires cfg.holdsWhileJoining && NoneBroken(cfg, g) && permits < Depth(Prune(g, cfg.glob))
    ensures CanDeadlock(cfg, g, permits)
  {
    DepthNeedsInternal(Prune(g, cfg.glob), cfg.broken);
    HoldingDeadlocksIff(cfg, g, permits);
  }
}
