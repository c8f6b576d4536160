/** Group arithmetic shared by all four generators: the 0-based address `i`
    belongs to group `i / g + 1`, and group names carry a numeric suffix only
    when the generator has decided that more than one group is in play. */
module Partition {

  /** The part of a group name that distinguishes groups of one batch:
      no suffix at all, or `_<number>`. */
  datatype GroupTag = Unnumbered | Numbered(number: nat)

  /** 1-based group number of the 0-based item `i` with `g` items per group. */
  function GroupOf(i: int, g: int): int
    requires 0 <= i && g >= 1
  {
    i / g + 1
  }

  /** Tag of item `i`, once a generator has computed whether names are
      numbered at all (`num_of_groups > 0` in each generator). */
  function Tag(numbered: bool, i: int, g: int): GroupTag
    requires 0 <= i && g >= 1
  {
    if numbered then Numbered(GroupOf(i, g)) else Unnumbered
  }

  /** The apply-side decision: `floor((len - 1) / g) > 0`. */
  predicate ApplyNumbered(n: int, g: int)
    requires g >= 1
  {
    (n - 1) / g > 0
  }

  /** The revert-side decision: `floor(len / g) > 0`. */
  predicate RevertNumbered(n: int, g: int)
    requires g >= 1
  {
    n / g > 0
  }

  function ApplyTag(n: int, g: int, i: int): GroupTag
    requires 0 <= i && g >= 1
  {
    Tag(ApplyNumbered(n, g), i, g)
  }

  function RevertTag(n: int, g: int, i: int): GroupTag
    requires 0 <= i && g >= 1
  {
    Tag(RevertNumbered(n, g), i, g)
  }

  /** Number of groups the SSG unset generator deletes:
      `floor((len - 1) / g) + 1`, which is 0 for an empty list. */
  function GroupCount(n: nat, g: int): (k: nat)
    requires g >= 1
  {
    var k := (n - 1) / g + 1;
    assert k >= 0 by { DivLowerBound(n - 1, g); }
    k
  }

  /** Tag of the `j`-th group deletion (0-based): unsuffixed when there is a
      single group, `_1 .. _k` otherwise. */
  function DeleteTag(n: nat, g: int, j: nat): GroupTag
    requires g >= 1
  {
    if GroupCount(n, g) == 1 then Unnumbered else Numbered(j + 1)
  }

  // ---- division facts -------------------------------------------------

  lemma MulMonotone(a: int, b: int, g: int)
    requires a <= b && g >= 1
    ensures a * g <= b * g
  {
    assert b * g - a * g == (b - a) * g;
  }

  lemma DivLowerBound(a: int, g: int)
    requires a >= -1 && g >= 1
    ensures a / g >= -1
    ensures a >= 0 ==> a / g >= 0
  {
    var q, r := a / g, a % g;
    assert a == q * g + r && 0 <= r < g;
  }

  /** `a / g == q` exactly when `q * g <= a < (q + 1) * g`. */
  lemma DivCharacterization(a: int, g: int, q: int)
    requires g >= 1
    ensures a / g == q <==> q * g <= a < (q + 1) * g
  {
    var d, r := a / g, a % g;
    assert a == d * g + r && 0 <= r < g;
    assert (d + 1) * g == d * g + g;
    assert (q + 1) * g == q * g + g;
    if q * g <= a < (q + 1) * g && d != q {
      if d < q {
        MulMonotone(d + 1, q, g);
      } else {
        MulMonotone(q + 1, d, g);
      }
    }
  }

  lemma DivMonotone(a: int, b: int, g: int)
    requires a <= b && g >= 1
    ensures a / g <= b / g
  {
    var qa, qb := a / g, b / g;
    DivCharacterization(a, g, qa);
    DivCharacterization(b, g, qb);
    if qa > qb {
      MulMonotone(qb + 1, qa, g);
    }
  }

  // ---- the partition --------------------------------------------------

  /** Group `k` holds exactly the items `(k-1)*g .. k*g - 1`. */
  lemma GroupOfExact(i: int, g: int, k: int)
    requires 0 <= i && g >= 1
    ensures GroupOf(i, g) == k <==> (k - 1) * g <= i < k * g
  {
    DivCharacterization(i, g, k - 1);
  }

  /** The apply side numbers its groups exactly when the list does not fit
      in one group. */
  lemma ApplyNumberedIff(n: nat, g: int)
    requires g >= 1
    ensures ApplyNumbered(n, g) <==> n > g
  {
    DivCharacterization(n - 1, g, 0);
    if n - 1 >= g {
      DivMonotone(g, n - 1, g);
      DivCharacterization(g, g, 1);
    } else {
      DivLowerBound(n - 1, g);
    }
  }

  /** The revert side numbers its groups as soon as the list fills one
      group. */
  lemma RevertNumberedIff(n: nat, g: int)
    requires g >= 1
    ensures RevertNumbered(n, g) <==> n >= g
  {
    DivCharacterization(n, g, 0);
    if n >= g {
      DivMonotone(g, n, g);
      DivCharacterization(g, g, 1);
    } else {
      DivLowerBound(n, g);
    }
  }

  /** The number of groups is the ceiling of `n / g`. */
  lemma GroupCountIsCeiling(n: nat, g: int)
    requires g >= 1
    ensures n == 0 ==> GroupCount(n, g) == 0
    ensures n >= 1 ==> (GroupCount(n, g) - 1) * g < n <= GroupCount(n, g) * g
    ensures GroupCount(n, g) == 1 <==> 1 <= n <= g
  {
    var q := (n - 1) / g;
    DivCharacterization(n - 1, g, q);
    if n == 0 {
      DivCharacterization(-1, g, -1);
    }
    ApplyNumberedIff(n, g);
  }

  /** First (0-based) item of group `k`. */
  function FirstOf(k: int, g: int): int {
    (k - 1) * g
  }

  lemma GroupOfInRange(n: nat, g: int, i: int)
    requires g >= 1 && 0 <= i < n
    ensures 1 <= GroupOf(i, g) <= GroupCount(n, g)
  {
    DivLowerBound(i, g);
    DivMonotone(i, n - 1, g);
  }

  lemma FirstOfInRange(n: nat, g: int, k: int)
    requires g >= 1 && 1 <= k <= GroupCount(n, g)
    ensures 0 <= FirstOf(k, g) < n && GroupOf(FirstOf(k, g), g) == k
  {
    var K := GroupCount(n, g);
    DivCharacterization(n - 1, g, K - 1);
    MulMonotone(k - 1, K - 1, g);
    MulMonotone(0, k - 1, g);
    GroupOfExact(FirstOf(k, g), g, k);
  }

  /** Every item of a list of `n` lands in one of the groups `1 .. GroupCount`,
      and every one of those groups receives at least one item. */
  lemma GroupsContiguous(n: nat, g: int)
    requires g >= 1
    ensures forall i :: 0 <= i < n ==> 1 <= GroupOf(i, g) <= GroupCount(n, g)
    ensures forall k :: 1 <= k <= GroupCount(n, g) ==>
      0 <= FirstOf(k, g) < n && GroupOf(FirstOf(k, g), g) == k
  {
    forall i | 0 <= i < n
      ensures 1 <= GroupOf(i, g) <= GroupCount(n, g)
    {
      GroupOfInRange(n, g, i);
    }
    forall k | 1 <= k <= GroupCount(n, g)
      ensures 0 <= FirstOf(k, g) < n && GroupOf(FirstOf(k, g), g) == k
    {
      FirstOfInRange(n, g, k);
    }
  }

  /** The items of group `k` in a list of `n`. */
  function GroupMembers(n: nat, g: int, k: int): set<nat>
    requires g >= 1
  {
    set i: nat | i < n && GroupOf(i, g) == k
  }

  /** The integers `lo .. hi - 1`. */
  function Range(lo: nat, hi: nat): set<nat>
    decreases hi - lo
  {
    if lo >= hi then {} else {lo} + Range(lo + 1, hi)
  }

  lemma {:induction false} RangeContents(lo: nat, hi: nat, i: nat)
    ensures i in Range(lo, hi) <==> lo <= i < hi
    decreases hi - lo
  {
    if lo < hi {
      RangeContents(lo + 1, hi, i);
    }
  }

  lemma {:induction false} RangeSize(lo: nat, hi: nat)
    requires lo <= hi
    ensures |Range(lo, hi)| == hi - lo
    decreases hi - lo
  {
    if lo < hi {
      RangeSize(lo + 1, hi);
      RangeContents(lo + 1, hi, lo);
    }
  }

  lemma GroupBounds(n: nat, g: int, k: int)
    requires g >= 1 && 1 <= k <= GroupCount(n, g)
    ensures 0 <= (k - 1) * g < n
    ensures k < GroupCount(n, g) ==> k * g < n
    ensures k == GroupCount(n, g) ==> n <= k * g
    ensures k * g == (k - 1) * g + g
  {
    var K := GroupCount(n, g);
    GroupCountIsCeiling(n, g);
    FirstOfInRange(n, g, k);
    if k < K {
      FirstOfInRange(n, g, k + 1);
    }
  }

  /** Each group holds at most `g` items; every group but the last is full,
      and the last holds what is left over. */
  lemma GroupCapacity(n: nat, g: int, k: int)
    requires g >= 1 && 1 <= k <= GroupCount(n, g)
    ensures 1 <= |GroupMembers(n, g, k)| <= g
    ensures k < GroupCount(n, g) ==> |GroupMembers(n, g, k)| == g
    ensures k == GroupCount(n, g) ==> |GroupMembers(n, g, k)| == n - (k - 1) * g
  {
    GroupBounds(n, g, k);
    var lo: nat := (k - 1) * g;
    var hi: nat := if k * g < n then k * g else n;
    forall i: nat
      ensures i in GroupMembers(n, g, k) <==> i in Range(lo, hi)
    {
      GroupOfExact(i, g, k);
      RangeContents(lo, hi, i);
    }
    assert GroupMembers(n, g, k) == Range(lo, hi);
    RangeSize(lo, hi);
  }

  /** Whenever `n != g` the revert side names every item's group exactly as
      the apply side did. */
  lemma TagsAgree(n: nat, g: int, i: nat)
    requires g >= 1 && n != g
    ensures ApplyTag(n, g, i) == RevertTag(n, g, i)
  {
    ApplyNumberedIff(n, g);
    RevertNumberedIff(n, g);
  }

  /** With exactly `g` items the apply side uses one unsuffixed group while
      the revert side names group `_1`. */
  lemma TagsDivergeAtLimit(n: nat, g: int, i: nat)
    requires g >= 1 && n == g && i < n
    ensures ApplyTag(n, g, i) == Unnumbered
    ensures RevertTag(n, g, i) == Numbered(1)
  {
    ApplyNumberedIff(n, g);
    RevertNumberedIff(n, g);
    GroupOfExact(i, g, 1);
  }

  /** One item past the limit splits into `_1` (the first `g`) and `_2`
      (the last one). */
  lemma OnePastLimit(g: int, i: nat)
    requires g >= 1 && i <= g
    ensures ApplyTag(g + 1, g, i) == if i < g then Numbered(1) else Numbered(2)
  {
    ApplyNumberedIff(g + 1, g);
    if i < g {
      GroupOfExact(i, g, 1);
    } else {
      GroupOfExact(i, g, 2);
    }
  }

  /** For every non-empty list the groups deleted are exactly the groups
      the apply side filled, each deleted once. */
  lemma DeletionCoverage(n: nat, g: int)
    requires g >= 1
    ensures n == 0 ==> GroupCount(n, g) == 0
    ensures n >= 1 ==>
      (set i | 0 <= i < n :: ApplyTag(n, g, i)) == (set j | 0 <= j < GroupCount(n, g) :: DeleteTag(n, g, j))
    ensures forall j1, j2 :: 0 <= j1 < j2 < GroupCount(n, g) ==> DeleteTag(n, g, j1) != DeleteTag(n, g, j2)
  {
    GroupCountIsCeiling(n, g);
    ApplyNumberedIff(n, g);
    var K := GroupCount(n, g);
    if n >= 1 {
      var used := set i | 0 <= i < n :: ApplyTag(n, g, i);
      var deleted := set j | 0 <= j < K :: DeleteTag(n, g, j);
      if K == 1 {
        assert ApplyTag(n, g, 0) == Unnumbered;
        assert used == {Unnumbered};
        assert DeleteTag(n, g, 0) == Unnumbered;
        assert deleted == {Unnumbered};
      } else {
        forall t | t in used
          ensures t in deleted
        {
          var i :| 0 <= i < n && t == ApplyTag(n, g, i);
          GroupOfInRange(n, g, i);
          assert t == DeleteTag(n, g, GroupOf(i, g) - 1);
        }
        forall t | t in deleted
          ensures t in used
        {
          var j :| 0 <= j < K && t == DeleteTag(n, g, j);
          FirstOfInRange(n, g, j + 1);
          assert t == ApplyTag(n, g, FirstOf(j + 1, g));
        }
      }
    }
  }
}
