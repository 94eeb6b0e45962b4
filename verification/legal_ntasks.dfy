/** `legal_ntasks`: snap a desired task count to the nearest legal value,
    where the legal values are the divisors of the node width `max_mpi`
    and its multiples up to the PE budget. Ties go to the smaller value,
    because `min` over the sorted candidate list keeps the first minimum. */
module LegalNtasks {
  import opened Config
  import Arith

  /** A value `legal_ntasks` may return for node width `m`. */
  predicate IsCandidate(x: int, m: int)
    requires m >= 1
  {
    (1 <= x <= m && m % x == 0) || (m <= x <= TotalPes && x % m == 0)
  }

  /** Distance used as the `min` key, `abs(x - value)`. */
  function Dist(x: int, value: int): int { Abs(x - value) }

  /** The divisors of `m` among 1..k, ascending. */
  function DivisorsUpTo(m: int, k: int): (r: seq<int>)
    ensures forall x :: x in r <==> 1 <= x <= k && x <= m && m % x == 0
    decreases k
  {
    if k <= 0 then []
    else DivisorsUpTo(m, k - 1) + (if k <= m && m % k == 0 then [k] else [])
  }

  /** The list `divisors`: every i in range(1, m + 1) with m % i == 0. */
  function Divisors(m: int): (r: seq<int>)
    ensures forall x :: x in r <==> 1 <= x <= m && m % x == 0
  {
    DivisorsUpTo(m, m)
  }

  /** range(x, TOTAL_PES + 1, m). */
  function MultiplesFrom(m: int, x: int): (r: seq<int>)
    requires m >= 1
    ensures forall y :: y in r <==> x <= y <= TotalPes && (y - x) % m == 0
    decreases TotalPes + 1 - x
  {
    if x > TotalPes then []
    else
      var rest := MultiplesFrom(m, x + m);
      MultiplesStep(m, x, rest);
      [x] + rest
  }

  /** Prepending x to the multiples that start at x + m gives those that start at x. */
  lemma MultiplesStep(m: int, x: int, rest: seq<int>)
    requires m >= 1 && x <= TotalPes
    requires forall y :: y in rest <==> x + m <= y <= TotalPes && (y - (x + m)) % m == 0
    ensures forall y :: y in [x] + rest <==> x <= y <= TotalPes && (y - x) % m == 0
  {
    forall y ensures y in [x] + rest <==> x <= y <= TotalPes && (y - x) % m == 0 {
      assert y in [x] + rest <==> y == x || y in rest;
      if x + m <= y {
        Arith.ShiftMod(y - (x + m), m);
        assert y - (x + m) + m == y - x;
      } else if x < y {
        Arith.DivModUnique(y - x, m, 0, y - x);
      } else if x == y {
        Arith.DivModUnique(0, m, 0, 0);
      }
    }
  }

  /** The list `multiples`: range(m, TOTAL_PES + 1, m). */
  function Multiples(m: int): (r: seq<int>)
    requires m >= 1
    ensures forall y :: y in r <==> m <= y <= TotalPes && y % m == 0
  {
    var r := MultiplesFrom(m, m);
    forall y ensures y in r <==> m <= y <= TotalPes && y % m == 0 {
      Arith.ShiftMod(y - m, m);
    }
    r
  }

  /** The legal values among 1..k, ascending and without repetition. */
  function CandidatesUpTo(m: int, k: int): (r: seq<int>)
    requires m >= 1
    ensures forall x :: x in r <==> 1 <= x <= k && IsCandidate(x, m)
    ensures forall i, j :: 0 <= i < j < |r| ==> r[i] < r[j]
    ensures forall i :: 0 <= i < |r| ==> r[i] <= k
    decreases k
  {
    if k <= 0 then []
    else CandidatesUpTo(m, k - 1) + (if IsCandidate(k, m) then [k] else [])
  }

  /** `sorted(set(divisors + multiples))`, built directly as the ascending
      list of legal values (see `CandidatesAreDivisorsAndMultiples`). */
  function Candidates(m: int): (r: seq<int>)
    requires m >= 1
    ensures forall x :: x in r <==> IsCandidate(x, m)
    ensures forall i, j :: 0 <= i < j < |r| ==> r[i] < r[j]
    ensures 1 in r
  {
    CandidatesUpTo(m, Max(m, TotalPes))
  }

  /** The candidate list holds exactly the elements of `divisors + multiples`;
      being strictly ascending, it is the one list `sorted(set(...))` gives. */
  lemma CandidatesAreDivisorsAndMultiples(m: int)
    requires m >= 1
    ensures forall x :: x in Candidates(m) <==> x in Divisors(m) + Multiples(m)
  {
    var d, u := Divisors(m), Multiples(m);
    forall x ensures x in d + u <==> x in d || x in u {
    }
  }

  /** `min(cs, key=lambda x: abs(x - value))`: Python keeps the first
      element whose key is smallest. */
  function MinByDistance(cs: seq<int>, value: int): (r: int)
    requires |cs| > 0
    ensures r in cs
    ensures forall x :: x in cs ==> Dist(r, value) <= Dist(x, value)
    ensures exists k :: 0 <= k < |cs| && cs[k] == r &&
              forall i :: 0 <= i < k ==> Dist(cs[i], value) > Dist(r, value)
    decreases |cs|
  {
    if |cs| == 1 then cs[0]
    else
      var best := MinByDistance(cs[..|cs| - 1], value);
      var last := cs[|cs| - 1];
      assert cs == cs[..|cs| - 1] + [last];
      if Dist(last, value) < Dist(best, value) then last else best
  }

  /** `legal_ntasks(value, max_mpi)`. The result is a legal value, no legal
      value is strictly closer to `value`, and among equally close legal
      values it is the smallest. A non-positive `max_mpi` makes the source
      fail (an empty `range` step or an empty `min`). */
  function LegalNtasks(value: int, m: int): (r: int)
    requires m >= 1
    ensures IsCandidate(r, m)
    ensures 1 <= r <= Max(m, TotalPes)
    ensures forall x :: IsCandidate(x, m) ==> Dist(r, value) <= Dist(x, value)
    ensures forall x :: IsCandidate(x, m) && Dist(x, value) == Dist(r, value) ==> r <= x
  {
    var cs := Candidates(m);
    var r := MinByDistance(cs, value);
    FirstMinimumIsLeast(cs, value, r);
    r
  }

  /** In an ascending list, the first element at the smallest distance is
      the smallest of those at that distance. */
  lemma FirstMinimumIsLeast(cs: seq<int>, value: int, r: int)
    requires forall i, j :: 0 <= i < j < |cs| ==> cs[i] < cs[j]
    requires exists k :: 0 <= k < |cs| && cs[k] == r &&
               forall i :: 0 <= i < k ==> Dist(cs[i], value) > Dist(r, value)
    ensures forall x :: x in cs && Dist(x, value) == Dist(r, value) ==> r <= x
  {
    var k :| 0 <= k < |cs| && cs[k] == r && forall i :: 0 <= i < k ==> Dist(cs[i], value) > Dist(r, value);
    forall x | x in cs && Dist(x, value) == Dist(r, value) ensures r <= x {
      var i :| 0 <= i < |cs| && cs[i] == x;
      assert k <= i;
    }
  }

  /** The three properties of `LegalNtasks` determine its result: a legal
      value that is nearest and smallest among the nearest is the answer. */
  lemma LegalNtasksUnique(value: int, m: int, c: int)
    requires m >= 1
    requires IsCandidate(c, m)
    requires forall x :: IsCandidate(x, m) ==>
               Dist(c, value) < Dist(x, value) || (Dist(c, value) == Dist(x, value) && c <= x)
    ensures LegalNtasks(value, m) == c
  {
    var r := LegalNtasks(value, m);
    assert Dist(r, value) <= Dist(c, value);
    assert Dist(c, value) <= Dist(r, value);
  }

  /** A legal value is returned unchanged. */
  lemma LegalNtasksIdentity(value: int, m: int)
    requires m >= 1
    requires IsCandidate(value, m)
    ensures LegalNtasks(value, m) == value
  {
    LegalNtasksUnique(value, m, value);
  }

  /** Docstring example: 563 snaps down to 512. */
  lemma Snap563To512()
    ensures LegalNtasks(563, 128) == 512
  {
    forall x | IsCandidate(x, 128)
      ensures Dist(512, 563) < Dist(x, 563) || (Dist(512, 563) == Dist(x, 563) && 512 <= x)
    {
      if x > 128 { assert x % 128 == 0; }
    }
    LegalNtasksUnique(563, 128, 512);
  }

  /** Docstring example: 600 snaps up to 640. */
  lemma Snap600To640()
    ensures LegalNtasks(600, 128) == 640
  {
    forall x | IsCandidate(x, 128)
      ensures Dist(640, 600) < Dist(x, 600) || (Dist(640, 600) == Dist(x, 600) && 640 <= x)
    {
      if x > 128 { assert x % 128 == 0; }
    }
    LegalNtasksUnique(600, 128, 640);
  }

  /** Docstring example: 7 snaps to the divisor 8, not to 6, which does not divide 128. */
  lemma Snap7To8()
    ensures LegalNtasks(7, 128) == 8
  {
    forall x | IsCandidate(x, 128)
      ensures Dist(8, 7) < Dist(x, 7) || (Dist(8, 7) == Dist(x, 7) && 8 <= x)
    {
    }
    LegalNtasksUnique(7, 128, 8);
  }

  /** Docstring example: 130 snaps down to 128. */
  lemma Snap130To128()
    ensures LegalNtasks(130, 128) == 128
  {
    forall x | IsCandidate(x, 128)
      ensures Dist(128, 130) < Dist(x, 130) || (Dist(128, 130) == Dist(x, 130) && 128 <= x)
    {
      if x > 128 { assert x % 128 == 0; }
    }
    LegalNtasksUnique(130, 128, 128);
  }

  /** Docstring example: 127 snaps up to 128; 126 and 127 do not divide 128. */
  lemma Snap127To128()
    ensures LegalNtasks(127, 128) == 128
  {
    forall x | IsCandidate(x, 128)
      ensures Dist(128, 127) < Dist(x, 127) || (Dist(128, 127) == Dist(x, 127) && 128 <= x)
    {
    }
    LegalNtasksUnique(127, 128, 128);
  }

  /** Docstring examples: the divisors 64 and 1 are returned unchanged. */
  lemma SnapDivisorsUnchanged()
    ensures LegalNtasks(64, 128) == 64
    ensures LegalNtasks(1, 128) == 1
  {
    LegalNtasksIdentity(64, 128);
    LegalNtasksIdentity(1, 128);
  }

  /** A tie between a smaller and a larger legal value goes to the smaller:
      192 is 64 away from both 128 and 256. */
  lemma LegalNtasksTieToSmaller()
    ensures LegalNtasks(192, 128) == 128
  {
    LegalNtasksUnique(192, 128, 128);
  }
}
