# Fixed-PE layout optimiser: a Dafny model of the layout step

`optimize_layout_fixed_pe.py` searches for a processor layout of a CESM case
on a fixed budget of `TOTAL_PES` = 1024 processing elements (PEs). Every trial
of the search does the same deterministic work between "sample some numbers"
and "hand a configuration to the simulator":

- it deals the components that are neither OCN nor stubs, in a shuffled
  order, round-robin into `num_groups` overlap groups;
- it turns each component's integer share of the budget into a task count.
  A stub gets one task. Any other component has its share clamped into its
  bounds and rounded to a positive multiple of the node width
  `MAX_MPITASKS_PER_NODE`;
- it packs the root PEs (`assign_rootpes`). OCN gets an exclusive block at
  root 0. Each group then gets one shared root, and the cursor advances by
  the group's largest task count. The trial is pruned when OCN or any group
  would run past the budget;
- it builds the `config` table of NTASKS, NTHRDS and ROOTPE per component.

The script also defines `legal_ntasks`. It snaps a task count to the nearest
divisor or multiple (up to the budget) of the node width, and ties go to the
smaller value.

The model has one module per part:

- `Config`: the constants, the component enumeration and the bounds table.
- `LegalNtasks`: pure functions.
- `TaskCounts`, `OverlapGroups`, `RootPes`: the loops, as methods. Each is
  proved against a specification function, and lemmas are proved about that
  function.
- `Layout`: the configuration loop and the whole trial. A trial's result is
  `Outcome`. It is None (pruned) exactly when the packing of the allocated
  task counts does not fit. Otherwise it is a layout with these properties:
  - every range lies inside the budget;
  - OCN's block comes first;
  - members of a group share a root;
  - ranges of different groups never overlap.

The script defines `legal_ntasks`, but the task-count loop does not call it.
The loop rounds `bounded / m` with Python's `round` (half to even), lifts the
result to at least 1 and multiplies by `m`. So `legal_ntasks` is modelled on
its own and is not part of the trial.

## Model

| member | source | states |
|---|---|---|
| Config.ComponentsEnumerated | optimize_layout_fixed_pe.py:15 | every component occurs in `COMPONENTS`, and no component occurs twice |
| Config.BoundsTableConsistent | optimize_layout_fixed_pe.py:16-22 | for every component the lower bound (default 1) is at least 1 and at most the upper bound (default `TOTAL_PES`), and the upper bound is at least `TOTAL_PES` |
| Config.MinLimit | optimize_layout_fixed_pe.py:19-22 | `TASK_MIN_LIMITS.get(comp, 1)`: 64 for ATM, 512 for OCN, 1 otherwise; always between 1 and `TOTAL_PES` |
| Config.MaxLimit | optimize_layout_fixed_pe.py:16-18 | `TASK_MAX_LIMITS.get(comp, TOTAL_PES)`: 5400 for ATM, `TOTAL_PES` otherwise; never below `TOTAL_PES` |
| LegalNtasks.DivisorsUpTo | optimize_layout_fixed_pe.py:136 | holds exactly the divisors of `max_mpi` that are at most k |
| LegalNtasks.Divisors | optimize_layout_fixed_pe.py:136 | `divisors` holds exactly the x in 1..m with m % x == 0 |
| LegalNtasks.MultiplesFrom | optimize_layout_fixed_pe.py:137 | `range(x, TOTAL_PES + 1, m)` holds exactly the y in [x, TOTAL_PES] with y - x a multiple of m |
| LegalNtasks.MultiplesStep | optimize_layout_fixed_pe.py:137 | prepending x to the range that starts at x + m gives the range that starts at x |
| LegalNtasks.Multiples | optimize_layout_fixed_pe.py:137 | `multiples` holds exactly the multiples of m in [m, TOTAL_PES] |
| LegalNtasks.CandidatesUpTo | optimize_layout_fixed_pe.py:138 | holds the legal values up to k, strictly ascending |
| LegalNtasks.Candidates | optimize_layout_fixed_pe.py:138 | the candidate list holds exactly the legal values, strictly ascending, and it contains 1, so it is never empty |
| LegalNtasks.CandidatesAreDivisorsAndMultiples | optimize_layout_fixed_pe.py:136-138 | the candidate list has exactly the elements of `divisors + multiples`; being strictly ascending, it is `sorted(set(...))` |
| LegalNtasks.MinByDistance | optimize_layout_fixed_pe.py:139 | keyed `min`: the result is in the list and has the smallest distance, and every earlier element is strictly farther (the first minimum is kept) |
| LegalNtasks.FirstMinimumIsLeast | optimize_layout_fixed_pe.py:138-139 | in an ascending list, the first element at the smallest distance is the smallest element at that distance |
| LegalNtasks.LegalNtasks | optimize_layout_fixed_pe.py:112-139 | the result is a divisor of `max_mpi` or a multiple of it up to `TOTAL_PES`, and no legal value is strictly closer to `value`; among equally close legal values it is the smallest |
| LegalNtasks.LegalNtasksUnique | optimize_layout_fixed_pe.py:136-139 | a legal value that is nearest, and smallest among the nearest, is the result |
| LegalNtasks.LegalNtasksIdentity | optimize_layout_fixed_pe.py:124-125 | a legal value is returned unchanged |
| LegalNtasks.Snap563To512 | optimize_layout_fixed_pe.py:120-121 | `legal_ntasks(563, 128)` is 512 |
| LegalNtasks.Snap600To640 | optimize_layout_fixed_pe.py:122-123 | `legal_ntasks(600, 128)` is 640 |
| LegalNtasks.Snap7To8 | optimize_layout_fixed_pe.py:126-127 | `legal_ntasks(7, 128)` is 8 |
| LegalNtasks.Snap130To128 | optimize_layout_fixed_pe.py:128-129 | `legal_ntasks(130, 128)` is 128 |
| LegalNtasks.Snap127To128 | optimize_layout_fixed_pe.py:130-131 | `legal_ntasks(127, 128)` is 128 |
| LegalNtasks.SnapDivisorsUnchanged | optimize_layout_fixed_pe.py:124-133 | `legal_ntasks(64, 128)` is 64 and `legal_ntasks(1, 128)` is 1 |
| LegalNtasks.LegalNtasksTieToSmaller | optimize_layout_fixed_pe.py:139 | 192 is equally far from 128 and 256, and the smaller, 128, wins |
| TaskCounts.Bounded | optimize_layout_fixed_pe.py:174 | the clamped share lies within the component's bounds; a share inside the bounds is kept, a share below is raised to the minimum, and a share above is cut to the maximum (applied last) |
| TaskCounts.RoundHalfEven | optimize_layout_fixed_pe.py:175 | Python `round(n / d)`: the result times d is within d/2 of n, and on an exact half the result is even |
| TaskCounts.RoundHalfEvenUnique | optimize_layout_fixed_pe.py:175 | any integer that is within half of n / d, and even on a tie, is the rounded value |
| TaskCounts.Snapped | optimize_layout_fixed_pe.py:175 | the snapped count is a multiple of m and at least m; above half a node it is the multiple nearest to `bounded` (ties to an even multiple), and at or below half a node it is m |
| TaskCounts.TaskCount | optimize_layout_fixed_pe.py:169-176 | a stub gets exactly 1 task; any other component gets a positive multiple of m |
| TaskCounts.Allocation | optimize_layout_fixed_pe.py:168-176 | the task-count table has an entry for every component, and each entry is that component's task count |
| TaskCounts.AssignTaskCounts | optimize_layout_fixed_pe.py:168-176 | the loop gives every component of `COMPONENTS` an entry with its task count, each at least 1, and the table it builds is `Allocation` |
| TaskCounts.SnappedExamples | optimize_layout_fixed_pe.py:175 | 64 with m = 128 gives 128; 192 gives 256; 320 gives 256 (2.5 rounds to the even 2) |
| TaskCounts.TaskCountExamples | optimize_layout_fixed_pe.py:174-175 | at node width 128, an ATM share of 10 is raised to 64 and then lifted to one node of 128, and an OCN share of at most 512 gives exactly OCN's minimum of 512 |
| OverlapGroups.Groupable | optimize_layout_fixed_pe.py:149 | keeps exactly the elements that are neither OCN nor stubs, and keeps a duplicate-free list duplicate-free |
| OverlapGroups.ComponentsToGroup | optimize_layout_fixed_pe.py:149 | `components_to_group` holds exactly the components that are neither OCN nor stubs, each once |
| OverlapGroups.Dealt | optimize_layout_fixed_pe.py:156-158 | the list the deal gives group k: drawn from the shuffled order and no longer than it (which positions it holds is `DealtMembers`, how many is `DealtSize`) |
| OverlapGroups.DealtMembers | optimize_layout_fixed_pe.py:157-158 | list k holds exactly the shuffled elements whose position is k modulo `num_groups` |
| OverlapGroups.DealtSize | optimize_layout_fixed_pe.py:156-158 | list k has len / n elements, plus one when k < len % n |
| OverlapGroups.DealtBalanced | optimize_layout_fixed_pe.py:156-158 | with 1 <= n <= len, no list is empty, and any two lists differ in size by at most one |
| OverlapGroups.DealRoundRobin | optimize_layout_fixed_pe.py:156-158 | the loop's lists are the round-robin deal of the shuffled order |
| OverlapGroups.DealtCovers | optimize_layout_fixed_pe.py:153-158 | dealing a permutation of `components_to_group` puts each groupable component in some list |
| OverlapGroups.DealtUnique | optimize_layout_fixed_pe.py:153-158 | no component lands in two lists |
| OverlapGroups.DealtOnlyGroupable | optimize_layout_fixed_pe.py:153-158 | neither OCN nor a stub lands in any list |
| OverlapGroups.BuildOverlapGroups | optimize_layout_fixed_pe.py:149-158 | there are `num_groups` lists, and list k holds the shuffled components at the positions that are k modulo `num_groups`, in order; every non-OCN, non-stub component is in exactly one, OCN and stubs in none; no list is empty, and sizes differ by at most one |
| RootPes.Span | optimize_layout_fixed_pe.py:51 | the group's largest non-stub task count, attained by a member; None exactly when every member is a stub (where `max` raises) |
| RootPes.Base | optimize_layout_fixed_pe.py:43-59 | `current_rootpe` on entry to group k: OCN's task count plus the widths of the earlier groups; with positive task counts never below OCN's task count |
| RootPes.GroupFits | optimize_layout_fixed_pe.py:51-53 | group k has a non-stub member and the cursor plus its span stays within `TOTAL_PES`, so the cursor after it is within budget |
| RootPes.Fits | optimize_layout_fixed_pe.py:43-53 | the packing is not pruned: OCN fits and every group fits; the final cursor is then within `TOTAL_PES` |
| RootPes.LastGroup | optimize_layout_fixed_pe.py:55-58 | the last group that holds c, after which no group holds it, or -1 |
| RootPes.Placement | optimize_layout_fixed_pe.py:39-61 | the `assigned` map holds OCN at 0 and exactly the non-stub, non-OCN components that some group holds |
| RootPes.PlaceGroup | optimize_layout_fixed_pe.py:55-58 | the inner loop gives every non-stub, non-OCN member of the group the current root and leaves every other entry unchanged |
| RootPes.PlaceGroupAt | optimize_layout_fixed_pe.py:55-59 | running the inner loop on group i at its base takes the state after i groups to the state after i + 1 groups |
| RootPes.PlacedStep | optimize_layout_fixed_pe.py:50-59 | placing group i at its base extends the state after i groups to the state after i + 1 groups |
| RootPes.NotFitsAt | optimize_layout_fixed_pe.py:51-53 | a group without a non-stub member, or one that would run past the budget, makes the packing fail |
| RootPes.FitsUpToStep | optimize_layout_fixed_pe.py:51-53 | a group that passes the check extends the prefix of groups that pass it |
| RootPes.AssignRootPes | optimize_layout_fixed_pe.py:33-61 | returns a result exactly when OCN fits and every group has a non-stub member and fits at its cursor; the result is then the placement |
| RootPes.PlacementIs | optimize_layout_fixed_pe.py:39-61 | a map with the keys and values the packing loop ends with is the placement |
| RootPes.PlacementRoot | optimize_layout_fixed_pe.py:55-58 | with disjoint groups, every non-stub, non-OCN member of group k gets the base of group k |
| RootPes.BaseStep | optimize_layout_fixed_pe.py:59 | with positive task counts, a group that fits advances the cursor by its width, which is at least 1 |
| RootPes.BaseGrows | optimize_layout_fixed_pe.py:50-59 | with positive task counts, each group advances the cursor by at least 1, so later bases lie at least a whole group width further on |
| RootPes.PlacementInBudget | optimize_layout_fixed_pe.py:51-53 | a non-stub member of a group starts at or after the end of OCN's block, and its range ends within `TOTAL_PES` |
| RootPes.PlacementSeparated | optimize_layout_fixed_pe.py:50-59 | a non-stub member of an earlier group ends at or before the base of any later group |
| RootPes.FirstGroupAfterOcn | optimize_layout_fixed_pe.py:43-47 | members of the first group start exactly where OCN's block ends |
| RootPes.GroupRootsAdvance | optimize_layout_fixed_pe.py:50-59 | the root of group k + 1 is the root of group k plus group k's largest task count |
| Layout.BuildConfig | optimize_layout_fixed_pe.py:185-194 | every component is configured; stubs as (1, 1, 0), other components as (task count, 1, root) |
| Layout.Configuration | optimize_layout_fixed_pe.py:185-194 | the `config` table for given task counts and roots: every component is configured and runs one thread |
| Layout.PlacementCoversNonStubs | optimize_layout_fixed_pe.py:193 | over a partition, every non-stub component has a root, so `rootpes[comp]` never fails |
| Layout.PartitionGroupsHaveSpan | optimize_layout_fixed_pe.py:51 | over a partition into non-empty groups, every group has a non-stub member, so `max` never meets an empty sequence |
| Layout.LayOut | optimize_layout_fixed_pe.py:166-194 | allocation, packing and configuration yield the trial's outcome: pruned exactly when the packing does not fit |
| Layout.Outcome | optimize_layout_fixed_pe.py:166-194 | the trial's result for given groups: None (pruned) exactly when the packing of the allocated task counts does not fit; otherwise every component is configured with one thread |
| Layout.Trial | optimize_layout_fixed_pe.py:149-194 | list k holds the shuffled components at the positions that are k modulo `num_groups`; the lists partition the non-OCN, non-stub components, none is empty, sizes differ by at most one, and every group has a non-stub member, so the `max` over a group never fails; the configuration is the outcome of laying the groups out |
| Layout.OutcomeEntries | optimize_layout_fixed_pe.py:179-194 | a configured trial's packing fits, and every component is configured from its task count and its placed root |
| Layout.OutcomeSettings | optimize_layout_fixed_pe.py:185-194 | in a configured trial every component runs one thread; stubs are (1, 1, 0), and other task counts are positive multiples of the node width |
| Layout.OutcomeInBudget | optimize_layout_fixed_pe.py:43-59 | in a configured trial every non-stub range `[rootpe, rootpe + ntasks)` lies inside `[0, TOTAL_PES]`; OCN is at 0, and every other range starts after OCN's block |
| Layout.OutcomeGroupsShareRoot | optimize_layout_fixed_pe.py:55-58 | in a configured trial all members of one group share their root |
| Layout.ConfigInBudget | optimize_layout_fixed_pe.py:43-59 | the budget properties of `OutcomeInBudget`, for the configuration of any task-count table that fits |
| Layout.OutcomeGroupsSeparated | optimize_layout_fixed_pe.py:50-59 | in a configured trial a member of an earlier group ends before any member of a later group begins, so ranges of different groups do not overlap |
| Layout.ConfigGroupsSeparated | optimize_layout_fixed_pe.py:50-59 | the group properties of `OutcomeGroupsSeparated`, for the configuration of any task-count table that fits |

## Left out

- `parse_args` and `main` (command-line handling and the optimisation study driver) are not part of this model.
- `configure_case` (writing the settings into the case, then setup, build and submit) is a foreign call with side effects; the model ends at the `config` table.
- `parse_timing` (directory listing, file reading, regular expressions, floating-point parsing) is left out. So is the pruning when timing is missing.
- Reading `COMP_*` and `MAX_MPITASKS_PER_NODE` from the case is left out. The set of stubs and the node width are inputs.
- Weight sampling and the floating-point share `raw_weights[comp] / weight_sum * TOTAL_PES` with `int(raw)` are left out. The model starts from each component's integer raw share.
- `random.shuffle` and `trial.suggest_*` are left out: the shuffled order (any permutation of `components_to_group`) and `num_groups` are inputs.
- The `print` of each component's raw, bounded and snapped values is left out.
- `optuna.TrialPruned` and the exceptions that `objective` turns into it are modelled as a None result.
- TaskCounts.RoundHalfEven: it rounds the exact rational `bounded / m`, not its floating-point quotient. The two agree for the integers that occur here.
- TaskCounts.AssignTaskCounts requires a node width of at least 1. With 0 the source divides by zero. With a negative width the source does not fail: `max(1, round(bounded / m)) * m` yields the negative width itself as every non-stub task count. The model does not cover negative widths.
- LegalNtasks.LegalNtasks requires a node width of at least 1. With 0 or less, the `range` step or the empty `min` makes the source fail.
- RootPes.AssignRootPes requires a task count for every component. A missing entry makes the source raise `KeyError`, which `objective` turns into a prune; `objective` always supplies a total table.
- Layout.Trial requires `1 <= num_groups <= len(components_to_group)`, the range `suggest_int` draws from. With every non-OCN component a stub, that range is empty and the source fails before grouping.
