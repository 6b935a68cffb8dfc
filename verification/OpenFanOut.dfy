/** The fan-out of `open_single` (src/walk.rs): every visited group is opened at once,
    and each opens all its arrays at once. No permit is taken. */
module OpenFanOut {
  import opened GroupTrees
  import opened Wrappers

  /** `pending` are the indices of the arrays still being opened. */
  datatype Opening = Unopened | InGroup | InArrays(pending: set<nat>)

  predicate Opened(o: Opening)
  {
    o.InArrays? && o.pending == {}
  }

  function Indices(n: nat): (s: set<nat>)
    ensures |s| == n && forall i: nat :: i in s <==> i < n
  {
    if n == 0 then {} else Indices(n - 1) + {n - 1}
  }

  /** Where an opening is after its next request is issued or answered; `j` picks the
      array whose answer arrives. */
  function Next(node: NodeData, o: Opening, j: nat): Option<Opening>
  {
    match o
    case Unopened => Some(InGroup)
    case InGroup => Some(InArrays(Indices(|node.vars|)))
    case InArrays(pending) => if j in pending then Some(InArrays(pending - {j})) else None
  }

  /** The path the same request fails on, if it does. */
  function Fault(node: NodeData, o: Opening, j: nat, broken: set<string>): Option<string>
  {
    match o
    case Unopened => None
    case InGroup => if node.path in broken then Some(node.path) else None
    case InArrays(pending) =>
      if j in pending && j < |node.vars| && node.vars[j].handle in broken then Some(node.vars[j].handle) else None
  }

  predicate Readable(node: NodeData, broken: set<string>)
  {
    node.path !in broken && forall i :: 0 <= i < |node.vars| ==> node.vars[i].handle !in broken
  }

  predicate AllReadable(nodes: seq<NodeData>, broken: set<string>)
  {
    forall i :: 0 <= i < |nodes| ==> Readable(nodes[i], broken)
  }

  /** A broken path that is one of the nodes' groups or arrays. */
  ghost predicate Blamable(nodes: seq<NodeData>, broken: set<string>, path: string)
  {
    path in broken && exists n :: n in nodes && (n.path == path || path in Handles(n.vars))
  }

  lemma {:induction false} BlamableIsUnreadable(nodes: seq<NodeData>, broken: set<string>, path: string)
    requires Blamable(nodes, broken, path)
    ensures !AllReadable(nodes, broken)
  {
    var n :| n in nodes && (n.path == path || path in Handles(n.vars));
    assert !Readable(n, broken);
  }

  predicate CanMove(node: NodeData, o: Opening, j: nat)
  {
    Next(node, o, j).Some?
  }

  /** Unreadable is when something is to blame. */
  lemma {:induction false} UnreadableIffBlamable(nodes: seq<NodeData>, broken: set<string>)
    ensures !AllReadable(nodes, broken) <==> exists p :: Blamable(nodes, broken, p)
  {
    if i :| 0 <= i < |nodes| && !Readable(nodes[i], broken) {
      var n := nodes[i];
      assert n in nodes;
      if n.path in broken {
        assert Blamable(nodes, broken, n.path);
      } else {
        var j :| 0 <= j < |n.vars| && n.vars[j].handle in broken;
        assert Handles(n.vars)[j] in Handles(n.vars);
        assert Blamable(nodes, broken, n.vars[j].handle);
      }
    }
    if p :| Blamable(nodes, broken, p) {
      BlamableIsUnreadable(nodes, broken, p);
    }
  }

  /** A hierarchy is readable when no group of it and no array of such a group is broken. */
  lemma {:induction false} ReadableMeans(g: Group, broken: set<string>)
    ensures AllReadable(Flatten(g), broken) <==>
            forall s | Contains(g, s) ::
              s.path !in broken && forall i :: 0 <= i < |s.vars| ==> s.vars[i].handle !in broken
  {
    if AllReadable(Flatten(g), broken) {
      forall s | Contains(g, s)
        ensures s.path !in broken && forall i :: 0 <= i < |s.vars| ==> s.vars[i].handle !in broken
      {
        var n := NodeData(s.path, s.attrs, s.vars);
        assert IsNodeOf(n, s);
        FlattenIsContents(g, n);
        var k :| 0 <= k < |Flatten(g)| && Flatten(g)[k] == n;
        assert Readable(Flatten(g)[k], broken);
      }
    } else {
      var k :| 0 <= k < |Flatten(g)| && !Readable(Flatten(g)[k], broken);
      var n := Flatten(g)[k];
      assert n in Flatten(g);
      FlattenIsContents(g, n);
      var s :| Contains(g, s) && IsNodeOf(n, s);
    }
  }

  // ----- every order of answers -----

  /** What has been answered so far was readable. */
  ghost predicate SoFar(node: NodeData, o: Opening, broken: set<string>)
  {
    o.InArrays? ==>
      && node.path !in broken
      && o.pending <= Indices(|node.vars|)
      && forall j: nat :: j < |node.vars| && j !in o.pending ==> node.vars[j].handle !in broken
  }

  ghost predicate AllSoFar(nodes: seq<NodeData>, s: seq<Opening>, broken: set<string>)
  {
    |s| == |nodes| && forall i :: 0 <= i < |s| ==> SoFar(nodes[i], s[i], broken)
  }

  function StepsLeft(nodes: seq<NodeData>, s: seq<Opening>): nat
    requires |s| == |nodes|
  {
    if s == [] then 0
    else
      (match s[0]
       case Unopened => 2 + |nodes[0].vars|
       case InGroup => 1 + |nodes[0].vars|
       case InArrays(pending) => |pending|) + StepsLeft(nodes[1..], s[1..])
  }

  lemma {:induction false} StepsLeftDrop(nodes: seq<NodeData>, s: seq<Opening>, i: nat, j: nat)
    requires |s| == |nodes| && i < |s| && CanMove(nodes[i], s[i], j)
    ensures StepsLeft(nodes, s[i := Next(nodes[i], s[i], j).value]) < StepsLeft(nodes, s)
  {
    var o := Next(nodes[i], s[i], j).value;
    if i == 0 {
      assert s[0 := o][1..] == s[1..];
    } else {
      StepsLeftDrop(nodes[1..], s[1..], i - 1, j);
      assert s[i := o][1..] == s[1..][i - 1 := o];
    }
  }

  lemma {:induction false} UnopenedCanMove(node: NodeData, o: Opening) returns (j: nat)
    requires !Opened(o)
    ensures CanMove(node, o, j)
  {
    j := 0;
    if o.InArrays? {
      j :| j in o.pending;
    }
  }

  lemma {:induction false} StepKeepsSoFar(nodes: seq<NodeData>, s: seq<Opening>, broken: set<string>, i: nat, j: nat)
    requires AllSoFar(nodes, s, broken) && i < |s| && CanMove(nodes[i], s[i], j)
    requires Fault(nodes[i], s[i], j, broken).None?
    ensures AllSoFar(nodes, s[i := Next(nodes[i], s[i], j).value], broken)
  {
    assert SoFar(nodes[i], Next(nodes[i], s[i], j).value, broken);
  }

  /** `try_join_all` over the groups, each over its arrays: whichever request is answered
      next, everything gets opened or the first failure ends the call. */
  method OpenTogether(nodes: seq<NodeData>, broken: set<string>) returns (fault: Option<string>)
    ensures fault.None? <==> AllReadable(nodes, broken)
    ensures fault.Some? ==> Blamable(nodes, broken, fault.value)
  {
    var s := seq(|nodes|, _ => Unopened);
    while exists i :: 0 <= i < |s| && !Opened(s[i])
      invariant AllSoFar(nodes, s, broken)
      decreases StepsLeft(nodes, s)
    {
      var i: nat :| i < |s| && !Opened(s[i]);
      ghost var some := UnopenedCanMove(nodes[i], s[i]);
      var j: nat :| CanMove(nodes[i], s[i], j);
      fault := Fault(nodes[i], s[i], j, broken);
      if fault.Some? {
        FaultIsBlamable(nodes, s[i], i, j, broken);
        BlamableIsUnreadable(nodes, broken, fault.value);
        return;
      }
      StepsLeftDrop(nodes, s, i, j);
      StepKeepsSoFar(nodes, s, broken, i, j);
      s := s[i := Next(nodes[i], s[i], j).value];
    }
    forall i | 0 <= i < |nodes| ensures Readable(nodes[i], broken) {
      assert Opened(s[i]) && SoFar(nodes[i], s[i], broken);
    }
    return None;
  }

  lemma {:induction false} FaultIsBlamable(nodes: seq<NodeData>, o: Opening, i: nat, j: nat, broken: set<string>)
    requires i < |nodes| && Fault(nodes[i], o, j, broken).Some?
    ensures Blamable(nodes, broken, Fault(nodes[i], o, j, broken).value)
  {
    var n := nodes[i];
    assert n in nodes;
    if o.InArrays? {
      assert Handles(n.vars)[j] == n.vars[j].handle;
    }
  }

  // ----- how much is in flight -----

  /** A run in which no answer is a failure; a failure would end it. */
  function RunOpens(nodes: seq<NodeData>, broken: set<string>, schedule: seq<(nat, nat)>): (s: Option<seq<Opening>>)
    ensures s.Some? ==> |s.value| == |nodes|
    decreases |schedule|
  {
    if schedule == [] then Some(seq(|nodes|, _ => Unopened))
    else
      var before := RunOpens(nodes, broken, schedule[..|schedule| - 1]);
      var (i, j) := schedule[|schedule| - 1];
      if before.None? || i >= |nodes| then None
      else if Fault(nodes[i], before.value[i], j, broken).Some? then None
      else if Next(nodes[i], before.value[i], j).None? then None
      else Some(before.value[i := Next(nodes[i], before.value[i], j).value])
  }

  ghost predicate OpensTo(nodes: seq<NodeData>, broken: set<string>, schedule: seq<(nat, nat)>, s: seq<Opening>)
  {
    RunOpens(nodes, broken, schedule).Some? && RunOpens(nodes, broken, schedule).value == s
  }

  function Requests(s: seq<Opening>): nat
  {
    if s == [] then 0
    else
      (match s[0]
       case Unopened => 0
       case InGroup => 1
       case InArrays(pending) => |pending|) + Requests(s[1..])
  }

  function GroupsInFlight(s: seq<Opening>): nat
  {
    if s == [] then 0 else (if s[0].InGroup? then 1 else 0) + GroupsInFlight(s[1..])
  }

  /** The most requests one group can have in flight. */
  function Width(n: NodeData, broken: set<string>): nat
  {
    if n.path in broken || n.vars == [] then 1 else |n.vars|
  }

  function TotalWidth(nodes: seq<NodeData>, broken: set<string>): nat
  {
    if nodes == [] then 0 else Width(nodes[0], broken) + TotalWidth(nodes[1..], broken)
  }

  lemma {:induction false} RunSoFar(nodes: seq<NodeData>, broken: set<string>, schedule: seq<(nat, nat)>)
    requires RunOpens(nodes, broken, schedule).Some?
    ensures AllSoFar(nodes, RunOpens(nodes, broken, schedule).value, broken)
    decreases |schedule|
  {
    if schedule == [] {
    } else {
      RunSoFar(nodes, broken, schedule[..|schedule| - 1]);
    }
  }

  lemma {:induction false} PendingBounded(a: set<nat>, n: nat)
    requires a <= Indices(n)
    ensures |a| <= n
  {
    Cardinality(a, Indices(n));
  }

  lemma {:induction false} Cardinality(a: set<nat>, b: set<nat>)
    requires a <= b
    ensures |a| <= |b|
  {
    if a == {} {
    } else {
      var x :| x in a;
      Cardinality(a - {x}, b - {x});
    }
  }

  lemma {:induction false} InFlightBounded(nodes: seq<NodeData>, s: seq<Opening>, broken: set<string>)
    requires AllSoFar(nodes, s, broken)
    ensures Requests(s) <= TotalWidth(nodes, broken) && GroupsInFlight(s) <= |nodes|
  {
    if s == [] {
    } else {
      assert SoFar(nodes[0], s[0], broken);
      if s[0].InArrays? {
        PendingBounded(s[0].pending, |nodes[0].vars|);
      }
      InFlightBounded(nodes[1..], s[1..], broken);
    }
  }

  /** A group with the most requests in flight, or just with its own open in flight. */
  function Top(n: NodeData, broken: set<string>, arrays: bool): Opening
  {
    if !arrays || n.path in broken || n.vars == [] then InGroup else InArrays(Indices(|n.vars|))
  }

  function Tops(nodes: seq<NodeData>, broken: set<string>, arrays: bool, k: nat): (s: seq<Opening>)
    ensures |s| == |nodes|
  {
    seq(|nodes|, i requires 0 <= i < |nodes| => if i < k then Top(nodes[i], broken, arrays) else Unopened)
  }

  /** Nothing keeps the groups from getting there one after the other. */
  lemma {:induction false} ReachTops(nodes: seq<NodeData>, broken: set<string>, arrays: bool, k: nat)
    returns (schedule: seq<(nat, nat)>)
    requires k <= |nodes|
    ensures OpensTo(nodes, broken, schedule, Tops(nodes, broken, arrays, k))
  {
    if k == 0 {
      schedule := [];
    } else {
      var before := ReachTops(nodes, broken, arrays, k - 1);
      schedule := OneToTop(nodes, broken, arrays, k - 1, before, Tops(nodes, broken, arrays, k - 1));
      TopsStep(nodes, broken, arrays, k - 1);
    }
  }

  lemma {:induction false} RunOneMore(nodes: seq<NodeData>, broken: set<string>, before: seq<(nat, nat)>,
                                      s: seq<Opening>, i: nat)
    requires OpensTo(nodes, broken, before, s) && i < |nodes| && CanMove(nodes[i], s[i], 0)
    requires Fault(nodes[i], s[i], 0, broken).None?
    ensures OpensTo(nodes, broken, before + [(i, 0)], s[i := Next(nodes[i], s[i], 0).value])
  {
    var more := before + [(i, 0)];
    assert more != [] && more[..|more| - 1] == before && more[|more| - 1] == (i, 0);
  }

  lemma {:induction false} TopsStep(nodes: seq<NodeData>, broken: set<string>, arrays: bool, k: nat)
    requires k < |nodes|
    ensures Tops(nodes, broken, arrays, k)[k := Top(nodes[k], broken, arrays)] == Tops(nodes, broken, arrays, k + 1)
  {}

  /** One unopened group gets to its top in one step or two. */
  lemma {:induction false} OneToTop(nodes: seq<NodeData>, broken: set<string>, arrays: bool, k: nat,
                                    before: seq<(nat, nat)>, s: seq<Opening>)
    returns (schedule: seq<(nat, nat)>)
    requires OpensTo(nodes, broken, before, s) && k < |nodes| && s[k].Unopened?
    ensures OpensTo(nodes, broken, schedule, s[k := Top(nodes[k], broken, arrays)])
  {
    RunOneMore(nodes, broken, before, s, k);
    schedule := before + [(k, 0)];
    if Top(nodes[k], broken, arrays).InArrays? {
      RunOneMore(nodes, broken, schedule, s[k := InGroup], k);
      schedule := schedule + [(k, 0)];
    }
  }

  lemma {:induction false} TopsTail(nodes: seq<NodeData>, broken: set<string>, arrays: bool)
    requires nodes != []
    ensures var s := Tops(nodes, broken, arrays, |nodes|);
            s[0] == Top(nodes[0], broken, arrays) && s[1..] == Tops(nodes[1..], broken, arrays, |nodes| - 1)
  {}

  lemma {:induction false} TopRequests(nodes: seq<NodeData>, broken: set<string>)
    ensures Requests(Tops(nodes, broken, true, |nodes|)) == TotalWidth(nodes, broken)
  {
    if nodes == [] {
    } else {
      TopsTail(nodes, broken, true);
      TopRequests(nodes[1..], broken);
    }
  }

  lemma {:induction false} TopGroups(nodes: seq<NodeData>, broken: set<string>)
    ensures GroupsInFlight(Tops(nodes, broken, false, |nodes|)) == |nodes|
  {
    if nodes == [] {
    } else {
      TopsTail(nodes, broken, false);
      TopGroups(nodes[1..], broken);
    }
  }

  function InGroupAt(s: seq<Opening>): set<nat>
  {
    set i: nat | i < |s| && s[i].InGroup?
  }

  lemma {:induction false} CountsAppend(s: seq<Opening>, o: Opening)
    ensures GroupsInFlight(s + [o]) == GroupsInFlight(s) + if o.InGroup? then 1 else 0
    ensures Requests(s + [o]) ==
            Requests(s) + match o case Unopened => 0 case InGroup => 1 case InArrays(pending) => |pending|
  {
    if s == [] {
      assert [] + [o] == [o] && [o][1..] == [];
    } else {
      assert (s + [o])[1..] == s[1..] + [o];
      CountsAppend(s[1..], o);
    }
  }

  /** The groups in flight are those being opened. */
  lemma {:induction false} GroupsInFlightCounts(s: seq<Opening>)
    ensures GroupsInFlight(s) == |InGroupAt(s)|
  {
    if s == [] {
    } else {
      var n := |s| - 1;
      GroupsInFlightCounts(s[..n]);
      CountsAppend(s[..n], s[n]);
      assert s[..n] + [s[n]] == s;
      if s[n].InGroup? {
        assert InGroupAt(s) == InGroupAt(s[..n]) + {n};
      } else {
        assert InGroupAt(s) == InGroupAt(s[..n]);
      }
    }
  }

  ghost predicate RequestsReach(nodes: seq<NodeData>, broken: set<string>, schedule: seq<(nat, nat)>, count: nat)
  {
    var end := RunOpens(nodes, broken, schedule);
    end.Some? && Requests(end.value) >= count
  }

  ghost predicate GroupsReach(nodes: seq<NodeData>, broken: set<string>, schedule: seq<(nat, nat)>, count: nat)
  {
    var end := RunOpens(nodes, broken, schedule);
    end.Some? && GroupsInFlight(end.value) >= count
  }

  /** The number of permits bounds neither the groups nor the requests in flight: so many
      groups are opened at the same time in some run if and only if so many are visited,
      and so many requests if and only if the groups and their arrays amount to that. */
  lemma {:induction false} OpensInFlight(nodes: seq<NodeData>, broken: set<string>, count: nat)
    ensures (exists schedule :: GroupsReach(nodes, broken, schedule, count)) <==> count <= |nodes|
    ensures (exists schedule :: RequestsReach(nodes, broken, schedule, count)) <==> count <= TotalWidth(nodes, broken)
  {
    TopRequests(nodes, broken);
    TopGroups(nodes, broken);
    if count <= |nodes| {
      var schedule := ReachTops(nodes, broken, false, |nodes|);
      assert GroupsReach(nodes, broken, schedule, count);
    }
    if count <= TotalWidth(nodes, broken) {
      var schedule := ReachTops(nodes, broken, true, |nodes|);
      assert RequestsReach(nodes, broken, schedule, count);
    }
    forall schedule | RunOpens(nodes, broken, schedule).Some?
      ensures Requests(RunOpens(nodes, broken, schedule).value) <= TotalWidth(nodes, broken)
      ensures GroupsInFlight(RunOpens(nodes, broken, schedule).value) <= |nodes|
    {
      RunSoFar(nodes, broken, schedule);
      InFlightBounded(nodes, RunOpens(nodes, broken, schedule).value, broken);
    }
  }
}
