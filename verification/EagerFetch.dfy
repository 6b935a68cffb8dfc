/** `eager_phase` (src/walk.rs): pre-fetch small coordinates concurrently, and scatter
    the results back into the node list in place. */
module EagerFetch {
  import opened GroupTrees
  import opened MachineWords
  import opened RowMajor
  import opened Wrappers

  const EAGER_FETCH_MAX_ELEMENTS: nat := 0x10_0000
  const EAGER_FETCH_MAX_OBJECT_ELEMENTS: nat := 4096
  const EAGER_FETCH_MAX_OBJECT_BYTES: nat := 8 * 1024 * 1024

  // ----- which variables, and what a fetch yields -----

  /** `shape.iter().product()`, wrapping. */
  function ProductWord(shape: seq<nat>): nat
  {
    if shape == [] then 1 else Wrap(ProductWord(shape[..|shape| - 1]) * shape[|shape| - 1])
  }

  predicate IsSelfNamed1D(v: VarMeta)
  {
    |v.dims| == 1 && v.dims[0] == v.name
  }

  predicate IsObject(v: VarMeta)
  {
    v.dtype.Text? || v.dtype.Bytes?
  }

  predicate ShouldEagerFetch(v: VarMeta)
  {
    var count := if v.shape == [] then 1 else ProductWord(v.shape);
    if IsObject(v) then count <= EAGER_FETCH_MAX_OBJECT_ELEMENTS && (v.shape == [] || IsSelfNamed1D(v))
    else count <= EAGER_FETCH_MAX_ELEMENTS && IsSelfNamed1D(v)
  }

  /** A character in UTF-8 (RFC 3629, section 3). */
  function Utf8(c: char): (bytes: seq<nat>)
    ensures 1 <= |bytes| <= 4
  {
    var n := c as int;
    if n < 0x80 then [n]
    else if n < 0x800 then [0xC0 + n / 64, 0x80 + n % 64]
    else if n < 0x1_0000 then [0xE0 + n / 64 / 64, 0x80 + n / 64 % 64, 0x80 + n % 64]
    else [0xF0 + n / 64 / 64 / 64, 0x80 + n / 64 / 64 % 64, 0x80 + n / 64 % 64, 0x80 + n % 64]
  }

  function StringBytes(s: string): nat
  {
    if s == [] then 0 else |Utf8(s[0])| + StringBytes(s[1..])
  }

  function TotalBytes(strings: seq<string>): nat
  {
    if strings == [] then 0 else StringBytes(strings[0]) + TotalBytes(strings[1..])
  }

  /** `fetch_all_elements`: `contents` maps each readable handle to the whole array.
      A failed read, an unsupported dtype and an oversized string payload all yield nothing. */
  function FetchAll(v: VarMeta, contents: map<string, Elements>): Option<Elements>
  {
    if v.handle !in contents then None
    else
      match v.dtype
      case Text =>
        if contents[v.handle].Str? && TotalBytes(contents[v.handle].strings) <= EAGER_FETCH_MAX_OBJECT_BYTES
        then Some(contents[v.handle]) else None
      case Numeric => Some(contents[v.handle])
      case _ => None
  }

  /** The same variable, but that `eager` may now be its own array's elements. */
  predicate SameButEager(after: VarMeta, before: VarMeta, contents: map<string, Elements>)
  {
    && after.name == before.name && after.dims == before.dims && after.dtype == before.dtype
    && after.shape == before.shape && after.attrs == before.attrs && after.handle == before.handle
    && (after.eager == before.eager || (before.handle in contents && after.eager == Some(contents[before.handle])))
  }

  lemma {:induction false} WarmedIsSame(v: VarMeta, contents: map<string, Elements>)
    ensures SameButEager(Warmed(v, contents), v, contents)
  {}

  /** What the phase makes of one variable. */
  function Warmed(v: VarMeta, contents: map<string, Elements>): VarMeta
  {
    if ShouldEagerFetch(v) && FetchAll(v, contents).Some? then v.(eager := FetchAll(v, contents)) else v
  }

  function WarmedNode(n: NodeData, contents: map<string, Elements>): NodeData
  {
    n.(vars := seq(|n.vars|, i requires 0 <= i < |n.vars| => Warmed(n.vars[i], contents)))
  }

  // ----- the fetch tasks -----

  datatype Fetch = Queued | Reading | Fetched(result: Option<Elements>)

  function InFlight(fetches: seq<Fetch>): nat
  {
    if fetches == [] then 0 else (if fetches[0].Reading? then 1 else 0) + InFlight(fetches[1..])
  }

  /** Steps still to take. */
  function StepsLeft(fetches: seq<Fetch>): nat
  {
    if fetches == [] then 0
    else (match fetches[0] case Queued => 2 case Reading => 1 case Fetched(_) => 0) + StepsLeft(fetches[1..])
  }

  lemma {:induction false} UpdateFetch(fetches: seq<Fetch>, i: nat, f: Fetch)
    requires i < |fetches|
    requires (fetches[i].Queued? && f.Reading?) || (fetches[i].Reading? && f.Fetched?)
    ensures StepsLeft(fetches[i := f]) + 1 == StepsLeft(fetches)
    ensures InFlight(fetches[i := f]) == if f.Reading? then InFlight(fetches) + 1 else InFlight(fetches) - 1
  {
    if i == 0 {
      assert fetches[0 := f][1..] == fetches[1..];
    } else {
      UpdateFetch(fetches[1..], i - 1, f);
      assert fetches[i := f][1..] == fetches[1..][i - 1 := f];
    }
  }

  predicate AllFetched(fetches: seq<Fetch>)
  {
    forall i :: 0 <= i < |fetches| ==> fetches[i].Fetched?
  }

  /** The `i`-th fetch takes a permit and starts its read, or completes it and gives the
      permit back. */
  function FetchStep(work: seq<VarMeta>, contents: map<string, Elements>, fetches: seq<Fetch>, free: nat, i: nat)
    : (r: Option<(seq<Fetch>, nat)>)
    requires |fetches| == |work|
    ensures r.Some? ==> |r.value.0| == |work|
  {
    if i >= |fetches| then None
    else
      match fetches[i]
      case Queued => if free > 0 then Some((fetches[i := Reading], free - 1)) else None
      case Reading => Some((fetches[i := Fetched(FetchAll(work[i], contents))], free + 1))
      case Fetched(_) => None
  }

  function AllQueued(n: nat): (fetches: seq<Fetch>)
    ensures |fetches| == n && forall i :: 0 <= i < n ==> fetches[i] == Queued
  {
    seq(n, _ => Queued)
  }

  /** A whole schedule; `None` if some step of it is not enabled. */
  function RunFetches(work: seq<VarMeta>, contents: map<string, Elements>, permits: nat, schedule: seq<nat>)
    : (r: Option<(seq<Fetch>, nat)>)
    ensures r.Some? ==> |r.value.0| == |work|
    decreases |schedule|
  {
    if schedule == [] then Some((AllQueued(|work|), permits))
    else
      var before := RunFetches(work, contents, permits, schedule[..|schedule| - 1]);
      if before.None? then None
      else FetchStep(work, contents, before.value.0, before.value.1, schedule[|schedule| - 1])
  }

  lemma {:induction false} NoneInFlight(fetches: seq<Fetch>)
    ensures InFlight(fetches) <= |fetches|
    ensures (forall i :: 0 <= i < |fetches| ==> !fetches[i].Reading?) ==> InFlight(fetches) == 0
    ensures (forall i :: 0 <= i < |fetches| ==> fetches[i].Queued?) ==> StepsLeft(fetches) == 2 * |fetches|
  {
    if fetches == [] {
    } else {
      NoneInFlight(fetches[1..]);
    }
  }

  /** What is fetched is the fetch's own array. */
  ghost predicate OwnResults(work: seq<VarMeta>, contents: map<string, Elements>, fetches: seq<Fetch>)
    requires |fetches| == |work|
  {
    forall i :: 0 <= i < |work| && fetches[i].Fetched? ==> fetches[i].result == FetchAll(work[i], contents)
  }

  lemma {:induction false} FetchStepKeeps(work: seq<VarMeta>, contents: map<string, Elements>, fetches: seq<Fetch>,
                                          free: nat, i: nat)
    requires |fetches| == |work| && OwnResults(work, contents, fetches)
    requires FetchStep(work, contents, fetches, free, i).Some?
    ensures var (fetches', free') := FetchStep(work, contents, fetches, free, i).value;
            && free' + InFlight(fetches') == free + InFlight(fetches)
            && StepsLeft(fetches') + 1 == StepsLeft(fetches)
            && OwnResults(work, contents, fetches')
  {
    UpdateFetch(fetches, i, FetchStep(work, contents, fetches, free, i).value.0[i]);
  }

  /** Every schedule conserves the permits, each held by one read in flight, fetches only
      own arrays, and takes at most two steps per fetch. */
  lemma {:induction false} FetchesConservePermits(work: seq<VarMeta>, contents: map<string, Elements>, permits: nat,
                                                  schedule: seq<nat>)
    requires RunFetches(work, contents, permits, schedule).Some?
    ensures var (fetches, free) := RunFetches(work, contents, permits, schedule).value;
            && free + InFlight(fetches) == permits
            && InFlight(fetches) <= |work|
            && OwnResults(work, contents, fetches)
            && |schedule| + StepsLeft(fetches) == 2 * |work|
    decreases |schedule|
  {
    if schedule == [] {
      NoneInFlight(AllQueued(|work|));
    } else {
      var front := schedule[..|schedule| - 1];
      FetchesConservePermits(work, contents, permits, front);
      var (fetches, free) := RunFetches(work, contents, permits, front).value;
      FetchStepKeeps(work, contents, fetches, free, schedule[|schedule| - 1]);
      NoneInFlight(RunFetches(work, contents, permits, schedule).value.0);
    }
  }

  /** Some fetch can move until all are done. */
  lemma {:induction false} SomeFetchEnabled(work: seq<VarMeta>, contents: map<string, Elements>, permits: nat,
                                            schedule: seq<nat>) returns (i: nat)
    requires permits >= 1 && RunFetches(work, contents, permits, schedule).Some?
    requires !AllFetched(RunFetches(work, contents, permits, schedule).value.0)
    ensures RunFetches(work, contents, permits, schedule + [i]).Some?
  {
    FetchesConservePermits(work, contents, permits, schedule);
    var (fetches, free) := RunFetches(work, contents, permits, schedule).value;
    NoneInFlight(fetches);
    if free > 0 {
      i :| i < |fetches| && !fetches[i].Fetched?;
    } else {
      i :| i < |fetches| && fetches[i].Reading?;
    }
    OneMoreFetch(work, contents, permits, schedule, i);
  }

  lemma {:induction false} OneMoreFetch(work: seq<VarMeta>, contents: map<string, Elements>, permits: nat,
                                        schedule: seq<nat>, i: nat)
    requires RunFetches(work, contents, permits, schedule).Some?
    ensures var (fetches, free) := RunFetches(work, contents, permits, schedule).value;
            RunFetches(work, contents, permits, schedule + [i]) == FetchStep(work, contents, fetches, free, i)
  {
    var more := schedule + [i];
    assert more != [] && more[..|more| - 1] == schedule && more[|more| - 1] == i;
  }

  ghost predicate ReadsReach(work: seq<VarMeta>, contents: map<string, Elements>, permits: nat, schedule: seq<nat>,
                             count: nat)
  {
    var end := RunFetches(work, contents, permits, schedule);
    end.Some? && InFlight(end.value.0) == count
  }

  /** A queued fetch starts. */
  lemma {:induction false} StartOne(work: seq<VarMeta>, contents: map<string, Elements>, permits: nat,
                                    schedule: seq<nat>, fetches: seq<Fetch>, free: nat, i: nat)
    requires RunFetches(work, contents, permits, schedule) == Some((fetches, free))
    requires i < |work| && fetches[i].Queued? && free > 0
    ensures RunFetches(work, contents, permits, schedule + [i]) == Some((fetches[i := Reading], free - 1))
  {
    OneMoreFetch(work, contents, permits, schedule, i);
  }

  function FirstReading(n: nat, count: nat): (fetches: seq<Fetch>)
    ensures |fetches| == n && forall i :: 0 <= i < n ==> fetches[i] == if i < count then Reading else Queued
  {
    seq(n, i => if i < count then Reading else Queued)
  }

  lemma {:induction false} FirstReadingInFlight(n: nat, count: nat)
    requires count <= n
    ensures InFlight(FirstReading(n, count)) == count
  {
    if n == 0 {
    } else if count == 0 {
      NoneInFlight(FirstReading(n, 0));
    } else {
      FirstReadingInFlight(n - 1, count - 1);
      assert FirstReading(n, count)[1..] == FirstReading(n - 1, count - 1);
    }
  }

  /** The first `count` fetches can all be reading. */
  lemma {:induction false} ReachReads(work: seq<VarMeta>, contents: map<string, Elements>, permits: nat, count: nat)
    returns (schedule: seq<nat>)
    requires count <= permits && count <= |work|
    ensures RunFetches(work, contents, permits, schedule) == Some((FirstReading(|work|, count), permits - count))
  {
    if count == 0 {
      schedule := [];
      assert AllQueued(|work|) == FirstReading(|work|, 0);
    } else {
      var before := ReachReads(work, contents, permits, count - 1);
      var fetches := FirstReading(|work|, count - 1);
      StartOne(work, contents, permits, before, fetches, permits - count + 1, count - 1);
      assert fetches[count - 1 := Reading] == FirstReading(|work|, count);
      schedule := before + [count - 1];
    }
  }

  /** The permits bound the reads exactly: some schedule has `count` of them in flight if
      and only if there are as many permits and as many fetches. */
  lemma {:induction false} ReadsInFlight(work: seq<VarMeta>, contents: map<string, Elements>, permits: nat, count: nat)
    ensures (exists schedule :: ReadsReach(work, contents, permits, schedule, count)) <==>
            count <= permits && count <= |work|
  {
    if count <= permits && count <= |work| {
      var schedule := ReachReads(work, contents, permits, count);
      FirstReadingInFlight(|work|, count);
      assert ReadsReach(work, contents, permits, schedule, count);
    }
    forall schedule | RunFetches(work, contents, permits, schedule).Some?
      ensures InFlight(RunFetches(work, contents, permits, schedule).value.0) <= permits
      ensures InFlight(RunFetches(work, contents, permits, schedule).value.0) <= |work|
    {
      FetchesConservePermits(work, contents, permits, schedule);
    }
  }

  /** `try_join_all` under the semaphore: whichever enabled fetch moves next, the results
      come back in work order. `schedule` is the one the runtime happened to pick. */
  method FetchConcurrently(work: seq<VarMeta>, permits: nat, contents: map<string, Elements>)
    returns (results: seq<Option<Elements>>, ghost schedule: seq<nat>)
    requires permits >= 1
    ensures |results| == |work| && forall i :: 0 <= i < |work| ==> results[i] == FetchAll(work[i], contents)
    ensures RunFetches(work, contents, permits, schedule).Some?
    ensures var fetches := RunFetches(work, contents, permits, schedule).value.0;
            forall i :: 0 <= i < |work| ==> fetches[i] == Fetched(results[i])
  {
    var fetches, free := AllQueued(|work|), permits;
    schedule := [];
    while !AllFetched(fetches)
      invariant |fetches| == |work|
      invariant RunFetches(work, contents, permits, schedule) == Some((fetches, free))
      decreases StepsLeft(fetches)
    {
      FetchesConservePermits(work, contents, permits, schedule);
      ghost var some := SomeFetchEnabled(work, contents, permits, schedule);
      OneMoreFetch(work, contents, permits, schedule, some);
      var i: nat :| i < |fetches| && FetchStep(work, contents, fetches, free, i).Some?;
      OneMoreFetch(work, contents, permits, schedule, i);
      FetchStepKeeps(work, contents, fetches, free, i);
      var next := FetchStep(work, contents, fetches, free, i).value;
      fetches, free := next.0, next.1;
      schedule := schedule + [i];
    }
    FetchesConservePermits(work, contents, permits, schedule);
    results := seq(|work|, i requires 0 <= i < |work| && fetches[i].Fetched? => fetches[i].result);
  }

  lemma {:induction false} InFlightAppend(fetches: seq<Fetch>, f: Fetch)
    ensures InFlight(fetches + [f]) == InFlight(fetches) + if f.Reading? then 1 else 0
  {
    if fetches == [] {
      assert [] + [f] == [f] && [f][1..] == [];
    } else {
      assert (fetches + [f])[1..] == fetches[1..] + [f];
      InFlightAppend(fetches[1..], f);
    }
  }

  function ReadingAt(fetches: seq<Fetch>): set<nat>
  {
    set i: nat | i < |fetches| && fetches[i].Reading?
  }

  /** It is the number of fetches that are reading. */
  lemma {:induction false} InFlightCounts(fetches: seq<Fetch>)
    ensures InFlight(fetches) == |ReadingAt(fetches)|
  {
    if fetches == [] {
    } else {
      var n := |fetches| - 1;
      InFlightCounts(fetches[..n]);
      InFlightAppend(fetches[..n], fetches[n]);
      assert fetches[..n] + [fetches[n]] == fetches;
      if fetches[n].Reading? {
        assert ReadingAt(fetches) == ReadingAt(fetches[..n]) + {n};
      } else {
        assert ReadingAt(fetches) == ReadingAt(fetches[..n]);
      }
    }
  }

  /** At no point of the schedule are more reads in flight than there are permits. */
  ghost predicate ReadsBounded(work: seq<VarMeta>, contents: map<string, Elements>, permits: nat, schedule: seq<nat>)
  {
    forall n :: 0 <= n <= |schedule| ==>
                  var end := RunFetches(work, contents, permits, schedule[..n]);
                  end.Some? && InFlight(end.value.0) <= permits
  }

  lemma {:induction false} FetchesPrefix(work: seq<VarMeta>, contents: map<string, Elements>, permits: nat,
                                         schedule: seq<nat>, n: nat)
    requires RunFetches(work, contents, permits, schedule).Some? && n <= |schedule|
    ensures RunFetches(work, contents, permits, schedule[..n]).Some?
    decreases |schedule|
  {
    if n == |schedule| {
      assert schedule[..n] == schedule;
    } else {
      FetchesPrefix(work, contents, permits, schedule[..|schedule| - 1], n);
      assert schedule[..|schedule| - 1][..n] == schedule[..n];
    }
  }

  lemma {:induction false} FetchesAreBounded(work: seq<VarMeta>, contents: map<string, Elements>, permits: nat,
                                             schedule: seq<nat>)
    requires RunFetches(work, contents, permits, schedule).Some?
    ensures ReadsBounded(work, contents, permits, schedule)
  {
    forall n | 0 <= n <= |schedule|
      ensures RunFetches(work, contents, permits, schedule[..n]).Some?
      ensures InFlight(RunFetches(work, contents, permits, schedule[..n]).value.0) <= permits
    {
      FetchesPrefix(work, contents, permits, schedule, n);
      FetchesConservePermits(work, contents, permits, schedule[..n]);
    }
  }

  // ----- the phase -----

  /** The work list: where every eligible variable sits. */
  method EligibleVars(nodes: seq<NodeData>) returns (work: seq<(nat, nat)>)
    ensures forall ni: nat, vi: nat :: (ni, vi) in work <==>
                                       ni < |nodes| && vi < |nodes[ni].vars| && ShouldEagerFetch(nodes[ni].vars[vi])
  {
    work := [];
    for n := 0 to |nodes|
      invariant forall ni: nat, vi: nat :: (ni, vi) in work <==>
                                           ni < n && vi < |nodes[ni].vars| && ShouldEagerFetch(nodes[ni].vars[vi])
    {
      for v := 0 to |nodes[n].vars|
        invariant forall ni: nat, vi: nat :: (ni, vi) in work <==>
                                             && ni <= n && vi < |nodes[ni].vars| && ShouldEagerFetch(nodes[ni].vars[vi])
                                             && (ni < n || vi < v)
      {
        if ShouldEagerFetch(nodes[n].vars[v]) {
          work := work + [(n, v)];
        }
      }
    }
  }

  /** Assign the results back by (node, variable) index. */
  method Scatter(nodes: array<NodeData>, work: seq<(nat, nat)>, results: seq<Option<Elements>>,
                 contents: map<string, Elements>)
    requires |results| == |work|
    requires forall k :: 0 <= k < |work| ==>
                           && work[k].0 < nodes.Length && work[k].1 < |nodes[work[k].0].vars|
                           && ShouldEagerFetch(nodes[work[k].0].vars[work[k].1])
                           && results[k] == FetchAll(nodes[work[k].0].vars[work[k].1], contents)
    modifies nodes
    ensures forall i :: 0 <= i < nodes.Length ==>
                          && nodes[i].path == old(nodes[i]).path && nodes[i].attrs == old(nodes[i]).attrs
                          && |nodes[i].vars| == |old(nodes[i]).vars|
    ensures forall i: nat, j: nat :: i < nodes.Length && j < |nodes[i].vars| ==>
                                       var v := old(nodes[i]).vars[j];
                                       nodes[i].vars[j] == if (i, j) in work then Warmed(v, contents) else v
  {
    for k := 0 to |work|
      invariant forall i :: 0 <= i < nodes.Length ==>
                              && nodes[i].path == old(nodes[i]).path && nodes[i].attrs == old(nodes[i]).attrs
                              && |nodes[i].vars| == |old(nodes[i]).vars|
      invariant forall i: nat, j: nat :: i < nodes.Length && j < |nodes[i].vars| ==>
                                           var v := old(nodes[i]).vars[j];
                                           nodes[i].vars[j] == if (i, j) in work[..k] then Warmed(v, contents) else v
    {
      var (ni, vi) := work[k];
      assert work[..k + 1] == work[..k] + [(ni, vi)];
      if results[k].Some? {
        nodes[ni] := nodes[ni].(vars := nodes[ni].vars[vi := nodes[ni].vars[vi].(eager := results[k])]);
      }
    }
    assert work[..|work|] == work;
  }

  predicate Listed(nodes: seq<NodeData>, at: (nat, nat))
  {
    at.0 < |nodes| && at.1 < |nodes[at.0].vars|
  }

  /** Fetch and scatter. `work` and `schedule` are the reads made and the order the runtime
      made them in. */
  method FetchAndScatter(nodes: array<NodeData>, permits: nat, contents: map<string, Elements>)
    returns (ghost work: seq<VarMeta>, ghost schedule: seq<nat>)
    requires permits >= 1
    modifies nodes
    ensures forall i :: 0 <= i < nodes.Length ==> nodes[i] == WarmedNode(old(nodes[i]), contents)
    ensures ReadsBounded(work, contents, permits, schedule)
    ensures forall i: nat, j: nat :: i < nodes.Length && j < |old(nodes[i]).vars| ==>
                                       ShouldEagerFetch(old(nodes[i]).vars[j]) ==> old(nodes[i]).vars[j] in work
  {
    var listed := nodes[..];
    var at := EligibleVars(listed);
    assert forall k :: 0 <= k < |at| ==> (at[k].0, at[k].1) in at;
    var vars := seq(|at|, k requires 0 <= k < |at| && Listed(listed, at[k]) => listed[at[k].0].vars[at[k].1]);
    var results;
    results, schedule := FetchConcurrently(vars, permits, contents);
    work := vars;
    FetchesAreBounded(work, contents, permits, schedule);
    Scatter(nodes, at, results, contents);
    forall i | 0 <= i < nodes.Length ensures nodes[i] == WarmedNode(listed[i], contents) {
      assert nodes[i].vars == WarmedNode(listed[i], contents).vars;
    }
    forall i: nat, j: nat | i < nodes.Length && j < |listed[i].vars| && ShouldEagerFetch(listed[i].vars[j])
      ensures listed[i].vars[j] in work
    {
      EligibleIsRead(listed, at, work, i, j);
    }
  }

  /** Each eligible variable ends up with its own array's elements, or stays as it was if
      the fetch yields nothing; everything else is untouched. */
  method EagerPhase(nodes: array<NodeData>, permits: nat, contents: map<string, Elements>)
    returns (ghost work: seq<VarMeta>, ghost schedule: seq<nat>)
    requires permits >= 1
    modifies nodes
    ensures forall i :: 0 <= i < nodes.Length ==> nodes[i] == WarmedNode(old(nodes[i]), contents)
    ensures forall i :: 0 <= i < nodes.Length ==>
                          && nodes[i].path == old(nodes[i]).path && nodes[i].attrs == old(nodes[i]).attrs
                          && |nodes[i].vars| == |old(nodes[i]).vars|
    ensures forall i: nat, j: nat :: i < nodes.Length && j < |nodes[i].vars| ==>
                                       var v, v' := old(nodes[i]).vars[j], nodes[i].vars[j];
                                       && v'.name == v.name && v'.dims == v.dims && v'.dtype == v.dtype
                                       && v'.shape == v.shape && v'.attrs == v.attrs && v'.handle == v.handle
                                       && (v'.eager == v.eager ||
                                           (v.handle in contents && v'.eager == Some(contents[v.handle]) && v in work))
    ensures ReadsBounded(work, contents, permits, schedule)
  {
    work, schedule := FetchAndScatter(nodes, permits, contents);
  }

  lemma {:induction false} EligibleIsRead(nodes: seq<NodeData>, at: seq<(nat, nat)>, work: seq<VarMeta>, i: nat, j: nat)
    requires Listed(nodes, (i, j)) && |work| == |at|
    requires forall k :: 0 <= k < |at| ==> Listed(nodes, at[k]) && work[k] == nodes[at[k].0].vars[at[k].1]
    ensures (i, j) in at ==> nodes[i].vars[j] in work
  {
    if k :| 0 <= k < |at| && at[k] == (i, j) {
      assert work[k] == nodes[i].vars[j];
    }
  }

  // ----- the caps -----

  function Length(e: Elements): nat
  {
    match e
    case Str(strings) => |strings|
    case Num(numbers) => |numbers|
  }

  /** A variable as the walkers make it: one dimension name per axis, nothing fetched yet,
      and a store that returns whole arrays of the declared kind. */
  ghost predicate Fresh(v: VarMeta, contents: map<string, Elements>)
  {
    && v.eager.None? && |v.dims| == |v.shape|
    && (forall i :: 0 <= i < |v.shape| ==> v.shape[i] < WORD_MODULUS)
    && (v.handle in contents && (v.dtype.Text? || v.dtype.Numeric?) ==>
          && contents[v.handle].Str? == v.dtype.Text?
          && Length(contents[v.handle]) == Volume(v.shape))
  }

  /** A variable small and simple enough to be made resident. */
  ghost predicate WithinCaps(v: VarMeta, e: Elements)
  {
    if v.dtype.Text? then
      && (v.shape == [] || v.dims == [v.name])
      && Length(e) <= EAGER_FETCH_MAX_OBJECT_ELEMENTS
      && e.Str? && TotalBytes(e.strings) <= EAGER_FETCH_MAX_OBJECT_BYTES
    else v.dtype.Numeric? && v.dims == [v.name] && Length(e) <= EAGER_FETCH_MAX_ELEMENTS
  }

  /** The wrapping element count is exact wherever it decides anything. */
  lemma {:induction false} CountIsExact(shape: seq<nat>)
    requires |shape| <= 1 && forall i :: 0 <= i < |shape| ==> shape[i] < WORD_MODULUS
    ensures ProductWord(shape) == Volume(shape)
  {
    if shape != [] {
      assert shape[..0] == [] && shape[1..] == [];
      assert ProductWord([]) == 1 == Volume([]);
    }
  }

  /** A variable is resident after the phase exactly when its array could be read and is
      within the caps; what is resident is its own array. */
  lemma {:induction false} ResidentIffWithinCaps(v: VarMeta, contents: map<string, Elements>)
    requires Fresh(v, contents)
    ensures Warmed(v, contents).eager.Some? <==> v.handle in contents && WithinCaps(v, contents[v.handle])
    ensures Warmed(v, contents).eager.Some? ==> Warmed(v, contents).eager.value == contents[v.handle]
  {
    if |v.shape| <= 1 {
      CountIsExact(v.shape);
    }
    if IsSelfNamed1D(v) {
      assert v.dims == [v.name];
    }
  }

  // ----- the caps, in numbers -----

  /** UTF-8 gives the character back. */
  lemma {:induction false} Utf8Decodes(c: char)
    ensures var b := Utf8(c);
            c as int == if |b| == 1 then b[0]
            else if |b| == 2 then (b[0] - 0xC0) * 64 + (b[1] - 0x80)
            else if |b| == 3 then (b[0] - 0xE0) * 4096 + (b[1] - 0x80) * 64 + (b[2] - 0x80)
            else (b[0] - 0xF0) * 262144 + (b[1] - 0x80) * 4096 + (b[2] - 0x80) * 64 + (b[3] - 0x80)
    ensures |Utf8(c)| == if c as int <= 0x7F then 1 else if c as int <= 0x7FF then 2
                         else if c as int <= 0xFFFF then 3 else 4
  {}

  function Encoded(s: string): seq<nat>
  {
    if s == [] then [] else Utf8(s[0]) + Encoded(s[1..])
  }

  function AllEncoded(strings: seq<string>): seq<nat>
  {
    if strings == [] then [] else Encoded(strings[0]) + AllEncoded(strings[1..])
  }

  /** The byte count is the length of the strings' UTF-8. */
  lemma {:induction false} TotalBytesIsEncodedLength(strings: seq<string>)
    ensures TotalBytes(strings) == |AllEncoded(strings)|
  {
    if strings == [] {
    } else {
      StringBytesIsEncodedLength(strings[0]);
      TotalBytesIsEncodedLength(strings[1..]);
    }
  }

  lemma {:induction false} StringBytesIsEncodedLength(s: string)
    ensures StringBytes(s) == |Encoded(s)|
  {
    if s == [] {
    } else {
      StringBytesIsEncodedLength(s[1..]);
    }
  }

  /** What becomes resident, in numbers: a numeric variable exactly if it could be read, is
      one-dimensional along a dimension of its own name and has at most 1048576 elements;
      a string variable exactly if it could be read, is a scalar or such a coordinate, and
      has at most 4096 elements and 8388608 bytes; any other never. */
  lemma {:induction false} CapsInNumbers(v: VarMeta, contents: map<string, Elements>)
    requires Fresh(v, contents)
    ensures Warmed(v, contents).eager.Some? <==>
            && v.handle in contents
            && match v.dtype
               case Numeric => v.dims == [v.name] && v.shape[0] <= 1048576
               case Text =>
                 && (v.shape == [] || (v.dims == [v.name] && v.shape[0] <= 4096))
                 && contents[v.handle].Str? && |AllEncoded(contents[v.handle].strings)| <= 8388608
               case _ => false
  {
    ResidentIffWithinCaps(v, contents);
    if v.handle in contents && contents[v.handle].Str? {
      TotalBytesIsEncodedLength(contents[v.handle].strings);
    }
    if |v.shape| == 1 {
      assert v.shape[1..] == [];
      assert Volume(v.shape) == v.shape[0] * Volume(v.shape[1..]);
    }
  }
}
