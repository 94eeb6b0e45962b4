/** The task-count loop of `objective`: stubs get one task; every other
    component's integer raw share is clamped into its bounds and then
    rounded to a positive multiple of the node width `max_mpi`. The loop
    does not call `legal_ntasks`. */
module TaskCounts {
  import opened Config
  import Arith

  /** `min(max(MIN or 1, raw), MAX or TOTAL_PES)`: the raw share clamped
      into the component's bounds, the maximum applied last. */
  function Bounded(c: Comp, raw: int): (b: int)
    ensures MinLimit(c) <= b <= MaxLimit(c)
    ensures MinLimit(c) <= raw <= MaxLimit(c) ==> b == raw
    ensures raw < MinLimit(c) ==> b == MinLimit(c)
    ensures raw > MaxLimit(c) ==> b == MaxLimit(c)
  {
    BoundsTableConsistent(c);
    Min(Max(MinLimit(c), raw), MaxLimit(c))
  }

  /** Python's `round(n / d)` for a positive divisor: the nearest integer to
      n / d, and on an exact half the even one. */
  function RoundHalfEven(n: int, d: int): (k: int)
    requires d >= 1
    ensures 2 * Abs(n - k * d) <= d
    ensures 2 * Abs(n - k * d) == d ==> k % 2 == 0
  {
    var q, r := n / d, n % d;
    assert n - q * d == r;
    assert n - (q + 1) * d == r - d;
    if 2 * r > d then q + 1
    else if 2 * r < d then q
    else if q % 2 == 0 then q
    else q + 1
  }

  /** The two properties of `RoundHalfEven` single out its result: no
      other integer is as near to n / d with an even tie-break. */
  lemma RoundHalfEvenUnique(n: int, d: int, k: int)
    requires d >= 1
    requires 2 * Abs(n - k * d) <= d
    requires 2 * Abs(n - k * d) == d ==> k % 2 == 0
    ensures k == RoundHalfEven(n, d)
  {
    var k0 := RoundHalfEven(n, d);
    if k0 < k {
      Arith.MulGap(k, k0, d);
    } else if k < k0 {
      Arith.MulGap(k0, k, d);
    }
  }

  /** `max(1, round(bounded / m)) * m`: a positive multiple of m, the one
      nearest to `bounded` (ties to an even multiple), and never below m. */
  function Snapped(b: int, m: int): (s: int)
    requires m >= 1
    ensures s >= m && s % m == 0
    ensures 2 * b > m ==> 2 * Abs(b - s) <= m
    ensures 2 * b > m && 2 * Abs(b - s) == m ==> (s / m) % 2 == 0
    ensures 2 * b <= m ==> s == m
  {
    var k := Max(1, RoundHalfEven(b, m));
    Arith.MulAtLeast(k, m);
    Arith.MulMod(k, m);
    k * m
  }

  /** The task count the allocation loop gives one component. */
  function TaskCount(c: Comp, stubs: set<Comp>, raw: map<Comp, int>, m: int): (t: int)
    requires m >= 1
    requires c in stubs || c in raw
    ensures c in stubs ==> t == 1
    ensures c !in stubs ==> t >= m && t % m == 0
  {
    if c in stubs then 1 else Snapped(Bounded(c, raw[c]), m)
  }

  /** The whole `task_counts` table, one entry per component. */
  function Allocation(stubs: set<Comp>, raw: map<Comp, int>, m: int): (tc: map<Comp, int>)
    requires m >= 1
    requires forall c :: c !in stubs ==> c in raw
    ensures forall c :: c in tc && tc[c] == TaskCount(c, stubs, raw, m)
  {
    forall c ensures c in AllComps { ComponentsEnumerated(c); }
    map c | c in AllComps :: TaskCount(c, stubs, raw, m)
  }

  /** The loop over `COMPONENTS` filling `task_counts`. Every component gets
      an entry; stubs get exactly one task; every other component gets its
      clamped raw share snapped to a positive multiple of m. */
  method AssignTaskCounts(stubs: set<Comp>, raw: map<Comp, int>, m: int)
    returns (taskCounts: map<Comp, int>)
    requires m >= 1
    requires forall c :: c !in stubs ==> c in raw
    ensures forall c :: c in taskCounts
    ensures forall c :: c in taskCounts ==> taskCounts[c] == TaskCount(c, stubs, raw, m)
    ensures forall c :: c in taskCounts ==> taskCounts[c] >= 1
    ensures taskCounts == Allocation(stubs, raw, m)
  {
    taskCounts := map[];
    for i := 0 to |Components|
      invariant forall c :: c in taskCounts <==> c in Components[..i]
      invariant forall c :: c in taskCounts ==> taskCounts[c] == TaskCount(c, stubs, raw, m)
    {
      var c := Components[i];
      if c in stubs {
        taskCounts := taskCounts[c := 1];
      } else {
        var bounded := Min(Max(MinLimit(c), raw[c]), MaxLimit(c));
        var snapped := Max(1, RoundHalfEven(bounded, m)) * m;
        taskCounts := taskCounts[c := snapped];
      }
    }
    assert Components[..|Components|] == Components;
    forall c ensures c in taskCounts {
      ComponentsEnumerated(c);
    }
  }

  /** Worked values: 64 is half of 128 and rounds to 0, lifted to one
      node; 192 is 1.5 nodes and rounds to 2; 320 is 2.5 nodes and rounds
      to the even 2. */
  lemma SnappedExamples()
    ensures Snapped(64, 128) == 128
    ensures Snapped(192, 128) == 256
    ensures Snapped(320, 128) == 256
  {
  }

  /** At node width 128: a small ATM share is lifted to ATM's minimum of
      64, which then becomes one node of 128, and an OCN share of at most
      512 gives exactly OCN's minimum of 512. */
  lemma TaskCountExamples(raw: map<Comp, int>)
    requires ATM in raw && raw[ATM] == 10
    requires OCN in raw && 0 <= raw[OCN] <= 512
    ensures TaskCount(ATM, {}, raw, 128) == 128
    ensures TaskCount(OCN, {}, raw, 128) == 512
  {
  }
}
