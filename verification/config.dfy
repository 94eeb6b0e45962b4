/** Process-wide constants of the fixed-PE layout optimiser: the PE budget,
    the enumeration of CESM components and the task-count bounds table. */
module Config {

  /** A value or its absence. In the packer and the trial driver `None`
      stands for a trial that is pruned (`optuna.TrialPruned`). */
  datatype Option<T> = None | Some(value: T)

  /** The fixed PE budget, `TOTAL_PES`. */
  const TotalPes: int := 1024

  /** The known CESM components. OCN is the one that gets an exclusive block. */
  datatype Comp = ATM | LND | ICE | CPL | ROF | GLC | WAV | OCN

  /** `COMPONENTS`, in the order the driver iterates over them. */
  const Components: seq<Comp> := [ATM, LND, ICE, CPL, ROF, GLC, WAV, OCN]

  /** The same components as a set, for map comprehensions. */
  const AllComps: set<Comp> := {ATM, LND, ICE, CPL, ROF, GLC, WAV, OCN}

  /** `TASK_MIN_LIMITS.get(comp, 1)`. */
  function MinLimit(c: Comp): (lo: int)
    ensures 1 <= lo <= TotalPes
  {
    match c
    case ATM => 64
    case OCN => 512
    case _ => 1
  }

  /** `TASK_MAX_LIMITS.get(comp, TOTAL_PES)`. */
  function MaxLimit(c: Comp): (hi: int)
    ensures hi >= TotalPes
  {
    if c == ATM then 5400 else TotalPes
  }

  /** Every component appears in `COMPONENTS`, exactly once. */
  lemma ComponentsEnumerated(c: Comp)
    ensures c in Components && c in AllComps
    ensures forall i, j :: 0 <= i < j < |Components| ==> Components[i] != Components[j]
  {
  }

  /** The bounds table is consistent: every component's minimum is at most
      its maximum, so clamping never has to resolve a conflict. */
  lemma BoundsTableConsistent(c: Comp)
    ensures 1 <= MinLimit(c) <= MaxLimit(c)
    ensures MaxLimit(c) >= TotalPes
  {
  }

  function Min(a: int, b: int): int { if a <= b then a else b }

  function Max(a: int, b: int): int { if a >= b then a else b }

  function Abs(x: int): int { if x >= 0 then x else -x }
}
