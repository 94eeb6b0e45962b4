/** Construction of the overlap groups in `objective`: the components that
    are neither OCN nor stubs, in a shuffled order, are dealt round-robin
    into `num_groups` lists. The shuffle is an input here: any permutation
    of `components_to_group`. */
module OverlapGroups {
  import opened Config
  import Arith

  /** No element occurs twice. */
  predicate Distinct(s: seq<Comp>)
  {
    forall i, j :: 0 <= i < j < |s| ==> s[i] != s[j]
  }

  /** The elements of `s` that are neither OCN nor stubs, in order. */
  function Groupable(s: seq<Comp>, stubs: set<Comp>): (r: seq<Comp>)
    ensures forall c :: c in r <==> c in s && c != OCN && c !in stubs
    ensures Distinct(s) ==> Distinct(r)
    decreases |s|
  {
    if s == [] then []
    else
      var rest := Groupable(s[..|s| - 1], stubs);
      var last := s[|s| - 1];
      assert s == s[..|s| - 1] + [last];
      if last != OCN && last !in stubs then rest + [last] else rest
  }

  /** `components_to_group`: every component that is neither OCN
      nor a stub, once each. */
  function ComponentsToGroup(stubs: set<Comp>): (r: seq<Comp>)
    ensures forall c :: c in r <==> c != OCN && c !in stubs
    ensures Distinct(r)
  {
    forall c ensures c in Components { ComponentsEnumerated(c); }
    ComponentsEnumerated(OCN);
    Groupable(Components, stubs)
  }

  /** What list k holds after the first |s| elements were dealt into n lists:
      the elements whose position is k modulo n, in order. */
  function Dealt(s: seq<Comp>, n: int, k: int): (r: seq<Comp>)
    requires n >= 1
    ensures |r| <= |s|
    ensures forall x :: x in r ==> x in s
    decreases |s|
  {
    if s == [] then []
    else Dealt(s[..|s| - 1], n, k) + (if (|s| - 1) % n == k then [s[|s| - 1]] else [])
  }

  /** List k holds exactly the elements at the positions that are k modulo n. */
  lemma {:induction false} DealtMembers(s: seq<Comp>, n: int, k: int, x: Comp)
    requires n >= 1
    ensures x in Dealt(s, n, k) <==> exists i :: 0 <= i < |s| && i % n == k && s[i] == x
    decreases |s|
  {
    if s != [] {
      var p := s[..|s| - 1];
      DealtMembers(p, n, k, x);
      if x in Dealt(p, n, k) {
        var i :| 0 <= i < |p| && i % n == k && p[i] == x;
        assert s[i] == x;
      }
      if exists i :: 0 <= i < |s| && i % n == k && s[i] == x {
        var i :| 0 <= i < |s| && i % n == k && s[i] == x;
        if i < |p| { assert p[i] == x; }
      }
    }
  }

  /** List k has |s| / n elements, plus one when k is below |s| % n. */
  lemma {:induction false} DealtSize(s: seq<Comp>, n: int, k: int)
    requires n >= 1 && 0 <= k < n
    ensures |Dealt(s, n, k)| == |s| / n + (if k < |s| % n then 1 else 0)
    decreases |s|
  {
    if s == [] {
      Arith.DivModUnique(0, n, 0, 0);
    } else {
      var len := |s| - 1;
      var p := s[..len];
      DealtSize(p, n, k);
      assert |Dealt(s, n, k)| == |Dealt(p, n, k)| + (if len % n == k then 1 else 0);
      Arith.DivModStep(len, n);
    }
  }

  /** With as many elements as lists, no list stays empty, and any two lists
      differ in size by at most one. */
  lemma DealtBalanced(s: seq<Comp>, n: int, k1: int, k2: int)
    requires 1 <= n <= |s|
    requires 0 <= k1 < n && 0 <= k2 < n
    ensures |Dealt(s, n, k1)| >= 1
    ensures |Dealt(s, n, k1)| <= |Dealt(s, n, k2)| + 1
  {
    DealtSize(s, n, k1);
    DealtSize(s, n, k2);
    if |s| / n == 0 {
      Arith.DivModUnique(|s|, n, 0, |s|);
    }
  }

  /** The dealing loop of `objective`: start from `num_groups` empty lists and
      append the i-th shuffled component to list i % num_groups. */
  method DealRoundRobin(shuffled: seq<Comp>, numGroups: int) returns (groups: seq<seq<Comp>>)
    requires numGroups >= 1
    ensures |groups| == numGroups
    ensures forall k :: 0 <= k < numGroups ==> groups[k] == Dealt(shuffled, numGroups, k)
  {
    groups := seq(numGroups, _ => []);
    for i := 0 to |shuffled|
      invariant |groups| == numGroups
      invariant forall k :: 0 <= k < numGroups ==> groups[k] == Dealt(shuffled[..i], numGroups, k)
    {
      assert shuffled[..i + 1][..i] == shuffled[..i];
      var k := i % numGroups;
      groups := groups[k := groups[k] + [shuffled[i]]];
    }
    assert shuffled[..|shuffled|] == shuffled;
  }

  /** A sequence is duplicate-free exactly when no element has multiplicity above one. */
  lemma {:induction false} DistinctMultiplicity(s: seq<Comp>)
    ensures Distinct(s) <==> forall x :: multiset(s)[x] <= 1
    decreases |s|
  {
    if s != [] {
      var p, last := s[..|s| - 1], s[|s| - 1];
      assert s == p + [last];
      DistinctMultiplicity(p);
      if Distinct(s) {
        assert Distinct(p);
        assert last !in p;
        assert multiset(s) == multiset(p) + multiset{last};
        assert multiset(p)[last] == 0;
      } else {
        assert multiset(s) == multiset(p) + multiset{last};
        var i, j :| 0 <= i < j < |s| && s[i] == s[j];
        if j < |p| {
          assert p[i] == p[j];
          var x :| multiset(p)[x] > 1;
          assert multiset(s)[x] >= multiset(p)[x];
        } else {
          assert s[i] == p[i];
          assert multiset(p)[last] >= 1;
          assert multiset(s) == multiset(p) + multiset{last};
          assert multiset(s)[last] >= 2;
        }
      }
    }
  }

  /** The overlap groups of `objective`. `shuffled` is the order
      `random.shuffle` produced; `numGroups` is the proposer's choice in
      [1, len(components_to_group)]. List k holds the shuffled components
      at the positions that are k modulo `numGroups`, in order. Every
      component that is neither OCN nor a stub lands in exactly one list,
      OCN and stubs in none, no list is empty, and list sizes differ by at
      most one. */
  method BuildOverlapGroups(stubs: set<Comp>, shuffled: seq<Comp>, numGroups: int)
    returns (groups: seq<seq<Comp>>)
    requires multiset(shuffled) == multiset(ComponentsToGroup(stubs))
    requires 1 <= numGroups <= |ComponentsToGroup(stubs)|
    ensures |groups| == numGroups
    ensures forall k :: 0 <= k < numGroups ==> groups[k] == Dealt(shuffled, numGroups, k)
    ensures forall c :: c != OCN && c !in stubs ==>
              exists k :: 0 <= k < |groups| && c in groups[k]
    ensures forall c, k1, k2 ::
              (0 <= k1 < |groups| && 0 <= k2 < |groups| && c in groups[k1] && c in groups[k2]) ==> k1 == k2
    ensures forall c, k :: 0 <= k < |groups| && c in groups[k] ==> c != OCN
    ensures forall c, k :: 0 <= k < |groups| && c in groups[k] ==> c !in stubs
    ensures forall k :: 0 <= k < |groups| ==> |groups[k]| >= 1
    ensures forall k1, k2 :: 0 <= k1 < |groups| && 0 <= k2 < |groups| ==>
              |groups[k1]| <= |groups[k2]| + 1
  {
    groups := DealRoundRobin(shuffled, numGroups);
    forall c | c != OCN && c !in stubs
      ensures exists k :: 0 <= k < |groups| && c in groups[k]
    {
      DealtCovers(stubs, shuffled, numGroups, c);
    }
    forall c, k1, k2 | 0 <= k1 < |groups| && 0 <= k2 < |groups| && c in groups[k1] && c in groups[k2]
      ensures k1 == k2
    {
      DealtUnique(stubs, shuffled, numGroups, c, k1, k2);
    }
    forall c, k | 0 <= k < |groups| && c in groups[k]
      ensures c != OCN
    {
      DealtOnlyGroupable(stubs, shuffled, numGroups, c, k);
    }
    forall c, k | 0 <= k < |groups| && c in groups[k]
      ensures c !in stubs
    {
      DealtOnlyGroupable(stubs, shuffled, numGroups, c, k);
    }
    assert |shuffled| == |ComponentsToGroup(stubs)| by {
      assert |multiset(shuffled)| == |multiset(ComponentsToGroup(stubs))|;
    }
    forall k1, k2 | 0 <= k1 < numGroups && 0 <= k2 < numGroups
      ensures |groups[k1]| >= 1 && |groups[k1]| <= |groups[k2]| + 1
    {
      DealtBalanced(shuffled, numGroups, k1, k2);
    }
    forall k | 0 <= k < numGroups ensures |groups[k]| >= 1 {
      DealtBalanced(shuffled, numGroups, k, k);
    }
  }

  /** Dealing a permutation of `components_to_group` puts each groupable
      component in some list. */
  lemma DealtCovers(stubs: set<Comp>, shuffled: seq<Comp>, n: int, c: Comp)
    requires multiset(shuffled) == multiset(ComponentsToGroup(stubs))
    requires n >= 1
    requires c != OCN && c !in stubs
    ensures exists k :: 0 <= k < n && c in Dealt(shuffled, n, k)
  {
    assert c in multiset(ComponentsToGroup(stubs));
    assert c in multiset(shuffled);
    var i :| 0 <= i < |shuffled| && shuffled[i] == c;
    DealtMembers(shuffled, n, i % n, c);
  }

  /** ... in at most one list, the order being a permutation of a
      duplicate-free list ... */
  lemma DealtUnique(stubs: set<Comp>, shuffled: seq<Comp>, n: int, c: Comp, k1: int, k2: int)
    requires multiset(shuffled) == multiset(ComponentsToGroup(stubs))
    requires n >= 1 && 0 <= k1 < n && 0 <= k2 < n
    requires c in Dealt(shuffled, n, k1) && c in Dealt(shuffled, n, k2)
    ensures k1 == k2
  {
    DistinctMultiplicity(ComponentsToGroup(stubs));
    DistinctMultiplicity(shuffled);
    DealtMembers(shuffled, n, k1, c);
    DealtMembers(shuffled, n, k2, c);
    var i1 :| 0 <= i1 < |shuffled| && i1 % n == k1 && shuffled[i1] == c;
    var i2 :| 0 <= i2 < |shuffled| && i2 % n == k2 && shuffled[i2] == c;
    assert i1 == i2;
  }

  /** ... and puts neither OCN nor a stub in any list. */
  lemma DealtOnlyGroupable(stubs: set<Comp>, shuffled: seq<Comp>, n: int, c: Comp, k: int)
    requires multiset(shuffled) == multiset(ComponentsToGroup(stubs))
    requires n >= 1 && 0 <= k < n
    requires c in Dealt(shuffled, n, k)
    ensures c != OCN && c !in stubs
  {
    var toGroup := ComponentsToGroup(stubs);
    DealtMembers(shuffled, n, k, c);
    var i :| 0 <= i < |shuffled| && i % n == k && shuffled[i] == c;
    assert c in multiset(shuffled);
    assert c in toGroup;
  }
}
