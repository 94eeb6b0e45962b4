/** `assign_rootpes`: OCN gets an exclusive block at root 0; then each
    overlap group in turn gets one shared root, the cursor advancing by
    the largest task count in the group. The trial is pruned when OCN
    alone, or any group, would run past the PE budget. */
module RootPes {
  import opened Config

  /** The task-count table has an entry for every component. */
  predicate Total(tc: map<Comp, int>)
  {
    forall c :: c in tc
  }

  /** A component the packer writes a root for when it meets it in a
      group: neither a stub nor OCN. */
  predicate Placeable(c: Comp, stubs: set<Comp>)
  {
    c !in stubs && c != OCN
  }

  /** The largest task count among the group's non-stub members, the span
      `assign_rootpes` gives a group; None when no member is a non-stub,
      where the source's `max` raises. */
  function Span(tc: map<Comp, int>, stubs: set<Comp>, g: seq<Comp>): (w: Option<int>)
    requires Total(tc)
    ensures w.None? <==> forall c :: c in g ==> c in stubs
    ensures w.Some? ==> exists c :: c in g && c !in stubs && tc[c] == w.value
    ensures w.Some? ==> forall c :: c in g && c !in stubs ==> tc[c] <= w.value
    decreases |g|
  {
    if g == [] then None
    else
      var rest := Span(tc, stubs, g[..|g| - 1]);
      var last := g[|g| - 1];
      assert g == g[..|g| - 1] + [last];
      if last in stubs then rest
      else if rest.None? || rest.value < tc[last] then Some(tc[last])
      else rest
  }

  /** The amount a group advances the cursor: its span, or 0 for a group
      without a non-stub member (such a group is pruned anyway). */
  function Width(tc: map<Comp, int>, stubs: set<Comp>, g: seq<Comp>): int
    requires Total(tc)
  {
    match Span(tc, stubs, g)
    case None => 0
    case Some(w) => w
  }

  /** `current_rootpe` on entry to group k: OCN's task
      count plus the widths of the groups before k. */
  function Base(tc: map<Comp, int>, stubs: set<Comp>, gs: seq<seq<Comp>>, k: int): (b: int)
    requires Total(tc)
    requires 0 <= k <= |gs|
    ensures PositiveCounts(tc) ==> tc[OCN] <= b
    decreases k
  {
    if k == 0 then tc[OCN] else Base(tc, stubs, gs, k - 1) + Width(tc, stubs, gs[k - 1])
  }

  /** Group k passes the overflow check of `assign_rootpes`: it has a
      non-stub member, and the cursor plus its span stays within the budget. */
  predicate GroupFits(tc: map<Comp, int>, stubs: set<Comp>, gs: seq<seq<Comp>>, k: int): (ok: bool)
    requires Total(tc)
    requires 0 <= k < |gs|
    ensures ok ==> exists c :: c in gs[k] && c !in stubs
    ensures ok ==> Base(tc, stubs, gs, k + 1) <= TotalPes
  {
    Span(tc, stubs, gs[k]).Some? && Base(tc, stubs, gs, k) + Span(tc, stubs, gs[k]).value <= TotalPes
  }

  /** The packing is not pruned: OCN fits and so does every group. */
  predicate Fits(tc: map<Comp, int>, stubs: set<Comp>, gs: seq<seq<Comp>>): (ok: bool)
    requires Total(tc)
    ensures ok ==> Base(tc, stubs, gs, |gs|) <= TotalPes
  {
    var ok := tc[OCN] <= TotalPes && forall k :: 0 <= k < |gs| ==> GroupFits(tc, stubs, gs, k);
    assert ok && |gs| > 0 ==> GroupFits(tc, stubs, gs, |gs| - 1);
    ok
  }

  /** The first i groups pass the overflow check. */
  predicate FitsUpTo(tc: map<Comp, int>, stubs: set<Comp>, gs: seq<seq<Comp>>, i: int)
    requires Total(tc) && 0 <= i <= |gs|
  {
    forall k :: 0 <= k < i ==> GroupFits(tc, stubs, gs, k)
  }

  /** A group that passes the check extends the prefix that does. */
  lemma FitsUpToStep(tc: map<Comp, int>, stubs: set<Comp>, gs: seq<seq<Comp>>, i: int)
    requires Total(tc) && 0 <= i < |gs|
    requires FitsUpTo(tc, stubs, gs, i)
    requires Span(tc, stubs, gs[i]).Some? && Base(tc, stubs, gs, i) + Span(tc, stubs, gs[i]).value <= TotalPes
    ensures FitsUpTo(tc, stubs, gs, i + 1)
  {
    assert GroupFits(tc, stubs, gs, i);
  }

  /** A group that fails the check makes the whole packing fail. */
  lemma NotFitsAt(tc: map<Comp, int>, stubs: set<Comp>, gs: seq<seq<Comp>>, i: int)
    requires Total(tc) && 0 <= i < |gs|
    requires Span(tc, stubs, gs[i]).None? || Base(tc, stubs, gs, i) + Span(tc, stubs, gs[i]).value > TotalPes
    ensures !Fits(tc, stubs, gs)
  {
    assert !GroupFits(tc, stubs, gs, i);
  }

  /** The index of the last group that holds c, or -1. Later groups
      overwrite the root an earlier group gave c. */
  function LastGroup(gs: seq<seq<Comp>>, c: Comp): (k: int)
    ensures -1 <= k < |gs|
    ensures k >= 0 ==> c in gs[k]
    ensures forall j :: k < j < |gs| ==> c !in gs[j]
    decreases |gs|
  {
    if gs == [] then -1
    else if c in gs[|gs| - 1] then |gs| - 1
    else LastGroup(gs[..|gs| - 1], c)
  }

  /** The `assigned` map of a packing that was not pruned: OCN at 0, and
      every placeable component that some group holds at the base of the
      last group holding it. */
  function Placement(tc: map<Comp, int>, stubs: set<Comp>, gs: seq<seq<Comp>>): (a: map<Comp, int>)
    requires Total(tc)
    ensures OCN in a && a[OCN] == 0
    ensures forall c :: c in a <==> c == OCN || (Placeable(c, stubs) && exists k :: 0 <= k < |gs| && c in gs[k])
  {
    forall c ensures c in AllComps { ComponentsEnumerated(c); }
    map c | c in AllComps && (c == OCN || (Placeable(c, stubs) && LastGroup(gs, c) >= 0)) ::
      if c == OCN then 0 else Base(tc, stubs, gs, LastGroup(gs, c))
  }

  /** LastGroup over one more group. */
  lemma LastGroupStep(gs: seq<seq<Comp>>, i: int, c: Comp)
    requires 0 <= i < |gs|
    ensures LastGroup(gs[..i + 1], c) == if c in gs[i] then i else LastGroup(gs[..i], c)
  {
    assert gs[..i + 1][..i] == gs[..i];
  }

  /** The inner loop over a group in `assign_rootpes`: every member of the group that is
      neither a stub nor OCN is given the root `base`; nothing else changes. */
  method PlaceGroup(placed: map<Comp, int>, stubs: set<Comp>, group: seq<Comp>, base: int)
    returns (placed': map<Comp, int>)
    ensures forall c :: c in placed' <==> c in placed || (Placeable(c, stubs) && c in group)
    ensures forall c :: c in placed' ==>
              placed'[c] == if Placeable(c, stubs) && c in group then base else placed[c]
  {
    placed' := placed;
    for j := 0 to |group|
      invariant forall c :: c in placed' <==> c in placed || (Placeable(c, stubs) && c in group[..j])
      invariant forall c :: c in placed' ==>
                  placed'[c] == if Placeable(c, stubs) && c in group[..j] then base else placed[c]
    {
      var comp := group[j];
      assert group[..j + 1] == group[..j] + [comp];
      if comp in stubs || comp == OCN {
        continue;
      }
      placed' := placed'[comp := base];
    }
    assert group[..|group|] == group;
  }

  /** `placed` is what the packing loop holds after the first i groups. */
  ghost predicate PlacedUpTo(tc: map<Comp, int>, stubs: set<Comp>, gs: seq<seq<Comp>>, i: int, placed: map<Comp, int>)
    requires Total(tc) && 0 <= i <= |gs|
  {
    && (forall c :: c in placed <==> c == OCN || (Placeable(c, stubs) && LastGroup(gs[..i], c) >= 0))
    && (forall c :: c in placed && c != OCN ==> placed[c] == Base(tc, stubs, gs, LastGroup(gs[..i], c)))
    && placed[OCN] == 0
  }

  /** Placing group i at its base extends the loop state by one group. */
  lemma PlacedStep(tc: map<Comp, int>, stubs: set<Comp>, gs: seq<seq<Comp>>, i: int,
                   placed: map<Comp, int>, placed': map<Comp, int>)
    requires Total(tc) && 0 <= i < |gs|
    requires PlacedUpTo(tc, stubs, gs, i, placed)
    requires forall c :: c in placed' <==> c in placed || (Placeable(c, stubs) && c in gs[i])
    requires forall c :: c in placed' ==>
               placed'[c] == if Placeable(c, stubs) && c in gs[i] then Base(tc, stubs, gs, i) else placed[c]
    ensures PlacedUpTo(tc, stubs, gs, i + 1, placed')
  {
    forall c ensures LastGroup(gs[..i + 1], c) == if c in gs[i] then i else LastGroup(gs[..i], c) {
      LastGroupStep(gs, i, c);
    }
  }

  /** The inner loop run on group i at its base, seen as a step of the
      packing loop. */
  method PlaceGroupAt(tc: map<Comp, int>, stubs: set<Comp>, gs: seq<seq<Comp>>, i: int,
                      placed: map<Comp, int>, base: int)
    returns (placed': map<Comp, int>)
    requires Total(tc) && 0 <= i < |gs| && base == Base(tc, stubs, gs, i)
    requires PlacedUpTo(tc, stubs, gs, i, placed)
    ensures PlacedUpTo(tc, stubs, gs, i + 1, placed')
  {
    placed' := PlaceGroup(placed, stubs, gs[i], base);
    PlacedStep(tc, stubs, gs, i, placed, placed');
  }

  /** `assign_rootpes(task_counts, stub_comps, overlap_groups)`. It returns
      None (the trial is pruned) exactly when the packing does not fit,
      and otherwise the placement: OCN at 0, each placeable group member
      at the base of the last group holding it. */
  method AssignRootPes(tc: map<Comp, int>, stubs: set<Comp>, gs: seq<seq<Comp>>)
    returns (r: Option<map<Comp, int>>)
    requires Total(tc)
    ensures r.Some? <==> Fits(tc, stubs, gs)
    ensures r.Some? ==> r.value == Placement(tc, stubs, gs)
  {
    var ocnTasks := tc[OCN];
    if ocnTasks > TotalPes {
      return None;
    }
    var placed := map[OCN := 0];
    var current := ocnTasks;
    assert gs[..0] == [];
    for i := 0 to |gs|
      invariant current == Base(tc, stubs, gs, i)
      invariant FitsUpTo(tc, stubs, gs, i)
      invariant PlacedUpTo(tc, stubs, gs, i, placed)
    {
      var group := gs[i];
      var span := Span(tc, stubs, group);
      if span.None? {
        // `max` of an empty sequence raises, and the caller prunes the trial
        NotFitsAt(tc, stubs, gs, i);
        return None;
      }
      var maxTasks := span.value;
      if current + maxTasks > TotalPes {
        NotFitsAt(tc, stubs, gs, i);
        return None;
      }
      FitsUpToStep(tc, stubs, gs, i);
      placed := PlaceGroupAt(tc, stubs, gs, i, placed, current);
      current := current + maxTasks;
    }
    assert gs[..|gs|] == gs;
    assert Fits(tc, stubs, gs);
    PlacementIs(tc, stubs, gs, placed);
    return Some(placed);
  }

  /** A map with the keys and values the packing loop ends with is the placement. */
  lemma PlacementIs(tc: map<Comp, int>, stubs: set<Comp>, gs: seq<seq<Comp>>, placed: map<Comp, int>)
    requires Total(tc)
    requires forall c :: c in placed <==> c == OCN || (Placeable(c, stubs) && LastGroup(gs, c) >= 0)
    requires forall c :: c in placed && c != OCN ==> placed[c] == Base(tc, stubs, gs, LastGroup(gs, c))
    requires OCN in placed && placed[OCN] == 0
    ensures placed == Placement(tc, stubs, gs)
  {
    var a := Placement(tc, stubs, gs);
    forall c ensures c in placed <==> c in a {
      ComponentsEnumerated(c);
    }
  }

  /** No component is a member of two groups. */
  predicate GroupsDisjoint(gs: seq<seq<Comp>>)
  {
    forall i, j, c :: 0 <= i < j < |gs| && c in gs[i] ==> c !in gs[j]
  }

  /** Every task count is positive, as the allocation guarantees. */
  predicate PositiveCounts(tc: map<Comp, int>)
  {
    forall c :: c in tc ==> tc[c] >= 1
  }

  /** All placeable members of one group share that group's base as root. */
  lemma PlacementRoot(tc: map<Comp, int>, stubs: set<Comp>, gs: seq<seq<Comp>>, k: int, c: Comp)
    requires Total(tc) && GroupsDisjoint(gs)
    requires 0 <= k < |gs| && c in gs[k] && Placeable(c, stubs)
    ensures c in Placement(tc, stubs, gs)
    ensures Placement(tc, stubs, gs)[c] == Base(tc, stubs, gs, k)
  {
    var last := LastGroup(gs, c);
    assert k <= last;
  }

  /** With positive task counts, a group that fits advances the cursor by
      its width, at least one PE. */
  lemma BaseStep(tc: map<Comp, int>, stubs: set<Comp>, gs: seq<seq<Comp>>, i: int)
    requires Total(tc) && PositiveCounts(tc) && Fits(tc, stubs, gs)
    requires 0 <= i < |gs|
    ensures Width(tc, stubs, gs[i]) >= 1
    ensures Base(tc, stubs, gs, i + 1) == Base(tc, stubs, gs, i) + Width(tc, stubs, gs[i])
  {
    assert GroupFits(tc, stubs, gs, i);
  }

  /** Hence group bases strictly increase: a later group begins at least a
      whole group width after an earlier one. */
  lemma {:induction false} BaseGrows(tc: map<Comp, int>, stubs: set<Comp>, gs: seq<seq<Comp>>, i: int, j: int)
    requires Total(tc) && PositiveCounts(tc) && Fits(tc, stubs, gs)
    requires 0 <= i < j <= |gs|
    ensures Width(tc, stubs, gs[i]) >= 1
    ensures Base(tc, stubs, gs, i) + Width(tc, stubs, gs[i]) <= Base(tc, stubs, gs, j)
    decreases j - i
  {
    BaseStep(tc, stubs, gs, i);
    if j > i + 1 {
      BaseGrows(tc, stubs, gs, i + 1, j);
    }
  }

  /** A member of group k lies inside the budget and after OCN's block. */
  lemma PlacementInBudget(tc: map<Comp, int>, stubs: set<Comp>, gs: seq<seq<Comp>>, k: int, c: Comp)
    requires Total(tc) && PositiveCounts(tc) && Fits(tc, stubs, gs)
    requires 0 <= k < |gs| && c in gs[k] && c !in stubs
    ensures tc[OCN] <= Base(tc, stubs, gs, k)
    ensures Base(tc, stubs, gs, k) + tc[c] <= TotalPes
  {
    assert GroupFits(tc, stubs, gs, k);
    if k > 0 {
      BaseGrows(tc, stubs, gs, 0, k);
    }
  }

  /** A non-stub member of an earlier group ends before a later group begins. */
  lemma PlacementSeparated(tc: map<Comp, int>, stubs: set<Comp>, gs: seq<seq<Comp>>,
                           i: int, j: int, c: Comp)
    requires Total(tc) && PositiveCounts(tc) && Fits(tc, stubs, gs)
    requires 0 <= i < j < |gs| && c in gs[i] && c !in stubs
    ensures Base(tc, stubs, gs, i) + tc[c] <= Base(tc, stubs, gs, j)
  {
    BaseGrows(tc, stubs, gs, i, j);
  }

  /** A placeable member of the first group starts right where OCN's
      block ends. */
  lemma FirstGroupAfterOcn(tc: map<Comp, int>, stubs: set<Comp>, gs: seq<seq<Comp>>, c: Comp)
    requires Total(tc) && GroupsDisjoint(gs)
    requires |gs| >= 1 && c in gs[0] && Placeable(c, stubs)
    ensures Placement(tc, stubs, gs)[c] == tc[OCN]
  {
    PlacementRoot(tc, stubs, gs, 0, c);
  }

  /** Consecutive groups: the root of group k + 1 is the root of group k
      plus the largest task count in group k. */
  lemma GroupRootsAdvance(tc: map<Comp, int>, stubs: set<Comp>, gs: seq<seq<Comp>>, k: int, c: Comp, d: Comp)
    requires Total(tc) && GroupsDisjoint(gs)
    requires 0 <= k && k + 1 < |gs|
    requires c in gs[k] && Placeable(c, stubs) && d in gs[k + 1] && Placeable(d, stubs)
    ensures Span(tc, stubs, gs[k]).Some?
    ensures Placement(tc, stubs, gs)[d] == Placement(tc, stubs, gs)[c] + Span(tc, stubs, gs[k]).value
  {
    PlacementRoot(tc, stubs, gs, k, c);
    PlacementRoot(tc, stubs, gs, k + 1, d);
  }
}
