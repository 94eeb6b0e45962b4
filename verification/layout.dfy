/** One trial's deterministic layout step in `objective`: build the overlap
    groups, allocate task counts, pack root PEs and assemble the
    configuration handed to the simulator. */
module Layout {
  import opened Config
  import TaskCounts
  import OverlapGroups
  import RootPes

  /** The settings written for one component: NTASKS, NTHRDS and ROOTPE. */
  datatype Setting = Setting(ntasks: int, nthrds: int, rootpe: int)

  /** The `config` dictionary for given task counts and roots: a stub runs
      one task on one thread at root 0, any other component its task count
      on one thread at its root. */
  function Configuration(stubs: set<Comp>, tc: map<Comp, int>, roots: map<Comp, int>): (cfg: map<Comp, Setting>)
    requires forall c :: c !in stubs ==> c in tc && c in roots
    ensures forall c :: c in cfg && cfg[c].nthrds == 1
  {
    forall c ensures c in AllComps { ComponentsEnumerated(c); }
    map c | c in AllComps :: if c in stubs then Setting(1, 1, 0) else Setting(tc[c], 1, roots[c])
  }

  /** The loop of `objective` that builds `config`. Every component is
      configured; a stub gets one task, one thread and root 0; any other
      component gets its task count, one thread and its packed root. */
  method BuildConfig(stubs: set<Comp>, taskCounts: map<Comp, int>, rootpes: map<Comp, int>)
    returns (config: map<Comp, Setting>)
    requires forall c :: c !in stubs ==> c in taskCounts && c in rootpes
    ensures forall c :: c in config
    ensures forall c :: c in stubs ==> config[c] == Setting(1, 1, 0)
    ensures forall c :: c !in stubs ==> config[c] == Setting(taskCounts[c], 1, rootpes[c])
    ensures config == Configuration(stubs, taskCounts, rootpes)
  {
    config := map[];
    for i := 0 to |Components|
      invariant forall c :: c in config <==> c in Components[..i]
      invariant forall c :: c in config && c in stubs ==> config[c] == Setting(1, 1, 0)
      invariant forall c :: c in config && c !in stubs ==> config[c] == Setting(taskCounts[c], 1, rootpes[c])
    {
      var c := Components[i];
      if c in stubs {
        config := config[c := Setting(1, 1, 0)];
      } else {
        config := config[c := Setting(taskCounts[c], 1, rootpes[c])];
      }
    }
    assert Components[..|Components|] == Components;
    forall c ensures c in config {
      ComponentsEnumerated(c);
    }
  }

  /** The overlap groups hold every component that is neither OCN nor a
      stub exactly once, and nothing else. */
  predicate Partition(stubs: set<Comp>, gs: seq<seq<Comp>>)
  {
    && (forall c :: RootPes.Placeable(c, stubs) ==> exists k :: 0 <= k < |gs| && c in gs[k])
    && (forall c, k1, k2 :: (0 <= k1 < |gs| && 0 <= k2 < |gs| && c in gs[k1] && c in gs[k2]) ==> k1 == k2)
    && (forall c, k :: 0 <= k < |gs| && c in gs[k] ==> RootPes.Placeable(c, stubs))
  }

  /** Over a partition every non-stub component has a root in the placement. */
  lemma PlacementCoversNonStubs(tc: map<Comp, int>, stubs: set<Comp>, gs: seq<seq<Comp>>)
    requires RootPes.Total(tc) && Partition(stubs, gs)
    ensures forall c :: c !in stubs ==> c in RootPes.Placement(tc, stubs, gs)
  {
    forall c | c !in stubs ensures c in RootPes.Placement(tc, stubs, gs) {
      if c != OCN {
        assert RootPes.Placeable(c, stubs);
        var k :| 0 <= k < |gs| && c in gs[k];
      }
    }
  }

  /** Over a partition into non-empty groups every group has a non-stub
      member, so the `max` over a group in `assign_rootpes` never meets an
      empty sequence. */
  lemma PartitionGroupsHaveSpan(tc: map<Comp, int>, stubs: set<Comp>, gs: seq<seq<Comp>>)
    requires RootPes.Total(tc) && Partition(stubs, gs)
    requires forall k :: 0 <= k < |gs| ==> |gs[k]| >= 1
    ensures forall k :: 0 <= k < |gs| ==> RootPes.Span(tc, stubs, gs[k]).Some?
  {
    forall k | 0 <= k < |gs| ensures RootPes.Span(tc, stubs, gs[k]).Some? {
      assert gs[k][0] in gs[k] && RootPes.Placeable(gs[k][0], stubs);
    }
  }

  /** What a trial yields for given groups: pruned (None) when the packing
      of the allocated task counts does not fit, and otherwise the
      configuration of those task counts at the packed roots. */
  function Outcome(stubs: set<Comp>, m: int, raw: map<Comp, int>, gs: seq<seq<Comp>>): (r: Option<map<Comp, Setting>>)
    requires m >= 1
    requires forall c :: c !in stubs ==> c in raw
    requires Partition(stubs, gs)
    ensures r.None? <==> !RootPes.Fits(TaskCounts.Allocation(stubs, raw, m), stubs, gs)
    ensures r.Some? ==> forall c :: c in r.value && r.value[c].nthrds == 1
  {
    var tc := TaskCounts.Allocation(stubs, raw, m);
    if !RootPes.Fits(tc, stubs, gs) then None
    else
      PlacementCoversNonStubs(tc, stubs, gs);
      Some(Configuration(stubs, tc, RootPes.Placement(tc, stubs, gs)))
  }

  /** The second half of `objective`: allocate the task counts, pack the
      roots (a pruned packing prunes the trial) and build `config`. */
  method LayOut(stubs: set<Comp>, maxMpi: int, raw: map<Comp, int>, groups: seq<seq<Comp>>)
    returns (config: Option<map<Comp, Setting>>)
    requires maxMpi >= 1
    requires forall c :: c !in stubs ==> c in raw
    requires Partition(stubs, groups)
    ensures config == Outcome(stubs, maxMpi, raw, groups)
  {
    var taskCounts := TaskCounts.AssignTaskCounts(stubs, raw, maxMpi);
    var rootpes := RootPes.AssignRootPes(taskCounts, stubs, groups);
    if rootpes.None? {
      return None;
    }
    PlacementCoversNonStubs(taskCounts, stubs, groups);
    var cfg := BuildConfig(stubs, taskCounts, rootpes.value);
    return Some(cfg);
  }

  /** The layout step of `objective` for one trial, from the proposer's
      choices (shuffled order, number of groups, integer raw shares) and the
      case metadata (stubs, node width) to the configuration, or None when
      the trial is pruned. List k holds the shuffled components at the
      positions that are k modulo `numGroups`; the lists partition the
      placeable components, none is empty and their sizes differ by at most
      one, so every group has a non-stub member whose task count spans it.
      The configuration is the outcome of laying the groups out. */
  method Trial(stubs: set<Comp>, maxMpi: int, raw: map<Comp, int>, shuffled: seq<Comp>, numGroups: int)
    returns (groups: seq<seq<Comp>>, config: Option<map<Comp, Setting>>)
    requires maxMpi >= 1
    requires forall c :: c !in stubs ==> c in raw
    requires multiset(shuffled) == multiset(OverlapGroups.ComponentsToGroup(stubs))
    requires 1 <= numGroups <= |OverlapGroups.ComponentsToGroup(stubs)|
    ensures |groups| == numGroups && Partition(stubs, groups)
    ensures forall k :: 0 <= k < numGroups ==> groups[k] == OverlapGroups.Dealt(shuffled, numGroups, k)
    ensures forall k :: 0 <= k < numGroups ==> |groups[k]| >= 1
    ensures forall k1, k2 :: 0 <= k1 < numGroups && 0 <= k2 < numGroups ==>
              |groups[k1]| <= |groups[k2]| + 1
    ensures forall k :: 0 <= k < numGroups ==>
              RootPes.Span(TaskCounts.Allocation(stubs, raw, maxMpi), stubs, groups[k]).Some?
    ensures config == Outcome(stubs, maxMpi, raw, groups)
  {
    groups := OverlapGroups.BuildOverlapGroups(stubs, shuffled, numGroups);
    PartitionGroupsHaveSpan(TaskCounts.Allocation(stubs, raw, maxMpi), stubs, groups);
    config := LayOut(stubs, maxMpi, raw, groups);
  }

  /** The entry of each component in a configured trial. */
  lemma OutcomeEntries(stubs: set<Comp>, m: int, raw: map<Comp, int>, gs: seq<seq<Comp>>)
    requires m >= 1
    requires forall c :: c !in stubs ==> c in raw
    requires Partition(stubs, gs)
    requires Outcome(stubs, m, raw, gs).Some?
    ensures var tc := TaskCounts.Allocation(stubs, raw, m);
      && RootPes.Fits(tc, stubs, gs)
      && RootPes.PositiveCounts(tc)
      && (forall c :: c !in stubs ==> c in RootPes.Placement(tc, stubs, gs))
      && (forall c :: c in Outcome(stubs, m, raw, gs).value)
      && (forall c :: Outcome(stubs, m, raw, gs).value[c] ==
            if c in stubs then Setting(1, 1, 0) else Setting(tc[c], 1, RootPes.Placement(tc, stubs, gs)[c]))
  {
    var tc := TaskCounts.Allocation(stubs, raw, m);
    PlacementCoversNonStubs(tc, stubs, gs);
    forall c ensures c in AllComps {
      ComponentsEnumerated(c);
    }
  }

  /** In a configured trial every component is configured with one thread;
      a stub as (1, 1, 0), any other component with a positive multiple of
      the node width as its task count. */
  lemma OutcomeSettings(stubs: set<Comp>, m: int, raw: map<Comp, int>, gs: seq<seq<Comp>>)
    requires m >= 1
    requires forall c :: c !in stubs ==> c in raw
    requires Partition(stubs, gs)
    requires Outcome(stubs, m, raw, gs).Some?
    ensures var cfg := Outcome(stubs, m, raw, gs).value;
      && (forall c :: c in cfg && cfg[c].nthrds == 1)
      && (forall c :: c in stubs ==> cfg[c] == Setting(1, 1, 0))
      && (forall c :: c !in stubs ==> cfg[c].ntasks >= m && cfg[c].ntasks % m == 0)
  {
    OutcomeEntries(stubs, m, raw, gs);
  }

  /** In a configured trial every non-stub component's PE range lies inside
      the budget; OCN sits at root 0, and every other range begins after
      OCN's block. */
  lemma OutcomeInBudget(stubs: set<Comp>, m: int, raw: map<Comp, int>, gs: seq<seq<Comp>>)
    requires m >= 1
    requires forall c :: c !in stubs ==> c in raw
    requires Partition(stubs, gs)
    requires Outcome(stubs, m, raw, gs).Some?
    ensures var cfg := Outcome(stubs, m, raw, gs).value;
      && (forall c :: c !in stubs ==> 0 <= cfg[c].rootpe && cfg[c].rootpe + cfg[c].ntasks <= TotalPes)
      && (OCN !in stubs ==> cfg[OCN].rootpe == 0)
      && (forall c :: c != OCN && c !in stubs ==> cfg[OCN].ntasks <= cfg[c].rootpe)
  {
    OutcomeEntries(stubs, m, raw, gs);
    var tc := TaskCounts.Allocation(stubs, raw, m);
    ConfigInBudget(stubs, tc, gs, Outcome(stubs, m, raw, gs).value);
  }

  /** The budget properties for the configuration of given task counts. */
  lemma ConfigInBudget(stubs: set<Comp>, tc: map<Comp, int>, gs: seq<seq<Comp>>, cfg: map<Comp, Setting>)
    requires RootPes.Total(tc) && RootPes.PositiveCounts(tc) && RootPes.Fits(tc, stubs, gs)
    requires Partition(stubs, gs)
    requires forall c :: c !in stubs ==> c in RootPes.Placement(tc, stubs, gs)
    requires forall c :: c in cfg
    requires forall c :: cfg[c] ==
               if c in stubs then Setting(1, 1, 0) else Setting(tc[c], 1, RootPes.Placement(tc, stubs, gs)[c])
    ensures forall c :: c !in stubs ==> 0 <= cfg[c].rootpe && cfg[c].rootpe + cfg[c].ntasks <= TotalPes
    ensures OCN !in stubs ==> cfg[OCN].rootpe == 0
    ensures forall c :: c != OCN && c !in stubs ==> cfg[OCN].ntasks <= cfg[c].rootpe
  {
    assert RootPes.GroupsDisjoint(gs);
    forall c | c != OCN && c !in stubs
      ensures 0 <= cfg[c].rootpe && cfg[c].rootpe + cfg[c].ntasks <= TotalPes
      ensures cfg[OCN].ntasks <= cfg[c].rootpe
    {
      assert RootPes.Placeable(c, stubs);
      var k :| 0 <= k < |gs| && c in gs[k];
      RootPes.PlacementRoot(tc, stubs, gs, k, c);
      RootPes.PlacementInBudget(tc, stubs, gs, k, c);
    }
  }

  /** In a configured trial the members of one group share their root. */
  lemma OutcomeGroupsShareRoot(stubs: set<Comp>, m: int, raw: map<Comp, int>, gs: seq<seq<Comp>>)
    requires m >= 1
    requires forall c :: c !in stubs ==> c in raw
    requires Partition(stubs, gs)
    requires Outcome(stubs, m, raw, gs).Some?
    ensures var cfg := Outcome(stubs, m, raw, gs).value;
      forall k, c, d :: (0 <= k < |gs| && c in gs[k] && d in gs[k]) ==> cfg[c].rootpe == cfg[d].rootpe
  {
    OutcomeEntries(stubs, m, raw, gs);
    var tc := TaskCounts.Allocation(stubs, raw, m);
    ConfigGroupsSeparated(stubs, tc, gs, Outcome(stubs, m, raw, gs).value);
  }

  /** In a configured trial a member of an earlier group ends before any
      member of a later group begins: ranges of different groups never
      overlap. */
  lemma OutcomeGroupsSeparated(stubs: set<Comp>, m: int, raw: map<Comp, int>, gs: seq<seq<Comp>>)
    requires m >= 1
    requires forall c :: c !in stubs ==> c in raw
    requires Partition(stubs, gs)
    requires Outcome(stubs, m, raw, gs).Some?
    ensures var cfg := Outcome(stubs, m, raw, gs).value;
      forall i, j, c, d :: (0 <= i < j < |gs| && c in gs[i] && d in gs[j]) ==>
        cfg[c].rootpe + cfg[c].ntasks <= cfg[d].rootpe
  {
    OutcomeEntries(stubs, m, raw, gs);
    var tc := TaskCounts.Allocation(stubs, raw, m);
    ConfigGroupsSeparated(stubs, tc, gs, Outcome(stubs, m, raw, gs).value);
  }

  /** The group properties for the configuration of given task counts. */
  lemma ConfigGroupsSeparated(stubs: set<Comp>, tc: map<Comp, int>, gs: seq<seq<Comp>>, cfg: map<Comp, Setting>)
    requires RootPes.Total(tc) && RootPes.PositiveCounts(tc) && RootPes.Fits(tc, stubs, gs)
    requires Partition(stubs, gs)
    requires forall c :: c !in stubs ==> c in RootPes.Placement(tc, stubs, gs)
    requires forall c :: c in cfg
    requires forall c :: cfg[c] ==
               if c in stubs then Setting(1, 1, 0) else Setting(tc[c], 1, RootPes.Placement(tc, stubs, gs)[c])
    ensures forall k, c, d :: (0 <= k < |gs| && c in gs[k] && d in gs[k]) ==> cfg[c].rootpe == cfg[d].rootpe
    ensures forall i, j, c, d :: (0 <= i < j < |gs| && c in gs[i] && d in gs[j]) ==>
              cfg[c].rootpe + cfg[c].ntasks <= cfg[d].rootpe
  {
    assert RootPes.GroupsDisjoint(gs);
    forall k, c, d | 0 <= k < |gs| && c in gs[k] && d in gs[k]
      ensures cfg[c].rootpe == cfg[d].rootpe
    {
      RootPes.PlacementRoot(tc, stubs, gs, k, c);
      RootPes.PlacementRoot(tc, stubs, gs, k, d);
    }
    forall i, j, c, d | 0 <= i < j < |gs| && c in gs[i] && d in gs[j]
      ensures cfg[c].rootpe + cfg[c].ntasks <= cfg[d].rootpe
    {
      RootPes.PlacementRoot(tc, stubs, gs, i, c);
      RootPes.PlacementRoot(tc, stubs, gs, j, d);
      RootPes.PlacementSeparated(tc, stubs, gs, i, j, c);
    }
  }
}
