/**
 * The stream stages of advertisement selection: the distinct content ids, the
 * eligibility filter, and the stable descending sort by click-through rate
 * whose head is taken.
 */
module Streams {
  import opened Targeting

  // ---------------------------------------------------------------------------
  // distinct(): duplicates dropped, first occurrences kept in order

  /** No value occurs twice in `s`. */
  ghost predicate NoDuplicates<T>(s: seq<T>) {
    forall i, j | 0 <= i < j < |s| :: s[i] != s[j]
  }

  /** The position of the first occurrence of `x` in `s`. */
  function FirstIndex<T(==)>(s: seq<T>, x: T): (k: nat)
    requires x in s
    ensures k < |s| && s[k] == x
    ensures forall j | 0 <= j < k :: s[j] != x
    decreases |s|
  {
    if s[0] == x then 0 else 1 + FirstIndex(s[1..], x)
  }

  /** `s` with every repeated value dropped after its first occurrence. */
  function Distinct<T(==)>(s: seq<T>): seq<T>
    decreases |s|
  {
    if s == [] then []
    else
      var d := Distinct(s[..|s| - 1]);
      if s[|s| - 1] in d then d else d + [s[|s| - 1]]
  }

  /**
   * Distinct keeps exactly the values of `s`, each once, in the order of their
   * first occurrences in `s`.
   */
  lemma {:induction false} DistinctProperties<T>(s: seq<T>)
    ensures NoDuplicates(Distinct(s))
    ensures forall x :: x in Distinct(s) <==> x in s
    ensures forall i, j | 0 <= i < j < |Distinct(s)| ::
              FirstIndex(s, Distinct(s)[i]) < FirstIndex(s, Distinct(s)[j])
    decreases |s|
  {
    if s != [] {
      var init, last := s[..|s| - 1], s[|s| - 1];
      assert s == init + [last];
      DistinctProperties(init);
      var d := Distinct(init);
      forall x | x in init ensures FirstIndex(s, x) == FirstIndex(init, x) {
        var k1, k2 := FirstIndex(s, x), FirstIndex(init, x);
        assert s[k2] == x;
      }
      if last !in d {
        assert FirstIndex(s, last) == |s| - 1;
        var r := d + [last];
        forall i, j | 0 <= i < j < |r| ensures FirstIndex(s, r[i]) < FirstIndex(s, r[j]) {
          if j == |r| - 1 {
            assert r[i] == d[i] && d[i] in d;
          } else {
            assert r[i] == d[i] && r[j] == d[j];
          }
        }
      }
    }
  }

  // ---------------------------------------------------------------------------
  // filter(): keep the groups whose verdict is TRUE

  /** The group's verdict for `ctx` is TRUE. */
  predicate IsEligible(ctx: RequestContext, g: TargetingGroup) {
    Verdict(ctx, g.targetingPredicates) == TRUE
  }

  /** The groups of `gs` whose verdict is TRUE, in their order in `gs`. */
  function Eligible(ctx: RequestContext, gs: seq<TargetingGroup>): (es: seq<TargetingGroup>)
    ensures |es| <= |gs|
    ensures forall i | 0 <= i < |es| :: IsEligible(ctx, es[i])
    decreases |gs|
  {
    if gs == [] then []
    else
      var es := Eligible(ctx, gs[..|gs| - 1]);
      if IsEligible(ctx, gs[|gs| - 1]) then es + [gs[|gs| - 1]] else es
  }

  /** The filter only keeps groups taken from its input, each at most as often as it occurs there. */
  lemma {:induction false} EligibleTakesFromInput(ctx: RequestContext, gs: seq<TargetingGroup>)
    ensures multiset(Eligible(ctx, gs)) <= multiset(gs)
    decreases |gs|
  {
    if gs != [] {
      assert gs == gs[..|gs| - 1] + [gs[|gs| - 1]];
      EligibleTakesFromInput(ctx, gs[..|gs| - 1]);
    }
  }

  /** The positions of `gs` whose group is eligible, in increasing order. */
  function EligiblePositions(ctx: RequestContext, gs: seq<TargetingGroup>): (ps: seq<int>)
    ensures forall i | 0 <= i < |ps| :: 0 <= ps[i] < |gs| && IsEligible(ctx, gs[ps[i]])
    ensures forall i, j | 0 <= i < j < |ps| :: ps[i] < ps[j]
    ensures forall j | 0 <= j < |gs| && IsEligible(ctx, gs[j]) :: j in ps
    decreases |gs|
  {
    if gs == [] then []
    else
      var ps := EligiblePositions(ctx, gs[..|gs| - 1]);
      if IsEligible(ctx, gs[|gs| - 1]) then ps + [|gs| - 1] else ps
  }

  /**
   * The filter keeps exactly the groups at the eligible positions of `gs`, in
   * the order of those positions: it is the in-order subsequence of eligible groups.
   */
  lemma {:induction false} EligibleIsSubsequence(ctx: RequestContext, gs: seq<TargetingGroup>)
    ensures |Eligible(ctx, gs)| == |EligiblePositions(ctx, gs)|
    ensures forall i | 0 <= i < |Eligible(ctx, gs)| ::
              Eligible(ctx, gs)[i] == gs[EligiblePositions(ctx, gs)[i]]
    decreases |gs|
  {
    if gs != [] {
      var init := gs[..|gs| - 1];
      EligibleIsSubsequence(ctx, init);
      assert forall j | 0 <= j < |init| :: init[j] == gs[j];
    }
  }

  /** Every eligible group of `gs` survives the filter. */
  lemma {:induction false} EligibleComplete(ctx: RequestContext, gs: seq<TargetingGroup>, j: int)
    requires 0 <= j < |gs| && IsEligible(ctx, gs[j])
    ensures exists i | 0 <= i < |Eligible(ctx, gs)| :: Eligible(ctx, gs)[i] == gs[j]
    decreases |gs|
  {
    var init := gs[..|gs| - 1];
    if j < |gs| - 1 {
      EligibleComplete(ctx, init, j);
      var i :| 0 <= i < |Eligible(ctx, init)| && Eligible(ctx, init)[i] == init[j];
      assert Eligible(ctx, gs)[i] == gs[j];
    } else {
      assert Eligible(ctx, gs)[|Eligible(ctx, gs)| - 1] == gs[j];
    }
  }

  /** The filter leaves nothing exactly when no group is eligible. */
  lemma EligibleEmpty(ctx: RequestContext, gs: seq<TargetingGroup>)
    ensures Eligible(ctx, gs) == [] <==> forall j | 0 <= j < |gs| :: !IsEligible(ctx, gs[j])
  {
    forall j | 0 <= j < |gs| && IsEligible(ctx, gs[j]) ensures Eligible(ctx, gs) != [] {
      EligibleComplete(ctx, gs, j);
    }
  }

  // ---------------------------------------------------------------------------
  // The top eligible group: highest CTR, earliest among equals

  /** `k` is the first position of `s` whose CTR is the largest in `s`. */
  ghost predicate IsFirstMax(s: seq<TargetingGroup>, k: int) {
    && 0 <= k < |s|
    && (forall j | 0 <= j < |s| :: s[j].clickThroughRate <= s[k].clickThroughRate)
    && (forall j | 0 <= j < k :: s[j].clickThroughRate < s[k].clickThroughRate)
  }

  /**
   * `k` is the group of `pool` the selection should pick: it is eligible, no
   * eligible group has a higher CTR, and every eligible group before it has a
   * strictly lower CTR.
   */
  ghost predicate IsTopEligible(ctx: RequestContext, pool: seq<TargetingGroup>, k: int) {
    && 0 <= k < |pool|
    && IsEligible(ctx, pool[k])
    && (forall j | 0 <= j < |pool| && IsEligible(ctx, pool[j]) ::
          pool[j].clickThroughRate <= pool[k].clickThroughRate)
    && (forall j | 0 <= j < k && IsEligible(ctx, pool[j]) ::
          pool[j].clickThroughRate < pool[k].clickThroughRate)
  }

  /** At most one position is the top eligible group. */
  lemma TopEligibleUnique(ctx: RequestContext, pool: seq<TargetingGroup>, k1: int, k2: int)
    requires IsTopEligible(ctx, pool, k1) && IsTopEligible(ctx, pool, k2)
    ensures k1 == k2
  {
  }

  /** The first maximum of the filtered sequence is the top eligible group of the pool. */
  lemma {:induction false} FirstMaxOfEligible(ctx: RequestContext, pool: seq<TargetingGroup>, m: int)
    requires IsFirstMax(Eligible(ctx, pool), m)
    ensures exists k :: IsTopEligible(ctx, pool, k) && pool[k] == Eligible(ctx, pool)[m]
    decreases |pool|
  {
    var init, last := pool[..|pool| - 1], pool[|pool| - 1];
    var es, es0 := Eligible(ctx, pool), Eligible(ctx, init);
    assert forall j | 0 <= j < |init| :: init[j] == pool[j];
    if m < |es0| {
      assert forall j | 0 <= j < |es0| :: es[j] == es0[j];
      FirstMaxOfEligible(ctx, init, m);
      var k :| IsTopEligible(ctx, init, k) && init[k] == es0[m];
      if IsEligible(ctx, last) {
        assert es[|es0|] == last;
      }
      assert IsTopEligible(ctx, pool, k);
    } else {
      assert IsEligible(ctx, last) && es[m] == last;
      forall j | 0 <= j < |init| && IsEligible(ctx, pool[j])
        ensures pool[j].clickThroughRate < last.clickThroughRate
      {
        EligibleComplete(ctx, init, j);
        var i :| 0 <= i < |es0| && es0[i] == init[j];
        assert es[i] == es0[i];
      }
      assert IsTopEligible(ctx, pool, |pool| - 1);
    }
  }

  /** Some group of the pool is the top eligible one exactly when some group is eligible. */
  lemma TopEligibleExists(ctx: RequestContext, pool: seq<TargetingGroup>)
    ensures (exists k :: IsTopEligible(ctx, pool, k)) <==> Eligible(ctx, pool) != []
  {
    EligibleEmpty(ctx, pool);
    var es := Eligible(ctx, pool);
    if es != [] {
      var m := FirstMaxIndex(es);
      FirstMaxOfEligible(ctx, pool, m);
    }
  }

  /** The first position of `s` carrying the largest CTR. */
  function FirstMaxIndex(s: seq<TargetingGroup>): (k: nat)
    requires s != []
    ensures IsFirstMax(s, k)
    decreases |s|
  {
    if |s| == 1 then 0
    else
      var k := 1 + FirstMaxIndex(s[1..]);
      if s[k].clickThroughRate <= s[0].clickThroughRate then 0 else k
  }

  // ---------------------------------------------------------------------------
  // sorted(comparing CTR, reversed): a stable sort, highest CTR first

  /** `s` is ordered by CTR, highest first. */
  ghost predicate DescendingByCtr(s: seq<TargetingGroup>) {
    forall i, j | 0 <= i < j < |s| :: s[i].clickThroughRate >= s[j].clickThroughRate
  }

  /** `x` placed before the first element of `s` whose CTR is not above its own. */
  function InsertByCtr(x: TargetingGroup, s: seq<TargetingGroup>): seq<TargetingGroup>
    decreases |s|
  {
    if s == [] || s[0].clickThroughRate <= x.clickThroughRate then [x] + s
    else [s[0]] + InsertByCtr(x, s[1..])
  }

  /** A stable insertion sort by CTR, highest first: elements of equal CTR keep their order. */
  function SortByCtrDescending(s: seq<TargetingGroup>): seq<TargetingGroup>
    decreases |s|
  {
    if s == [] then [] else InsertByCtr(s[0], SortByCtrDescending(s[1..]))
  }

  /** The elements of `s` whose CTR is exactly `ctr`, in their order in `s`. */
  function WithCtr(s: seq<TargetingGroup>, ctr: real): seq<TargetingGroup>
    decreases |s|
  {
    if s == [] then []
    else (if s[0].clickThroughRate == ctr then [s[0]] else []) + WithCtr(s[1..], ctr)
  }

  /** Inserting adds exactly `x`. */
  lemma {:induction false} InsertPermutes(x: TargetingGroup, s: seq<TargetingGroup>)
    ensures multiset(InsertByCtr(x, s)) == multiset(s) + multiset{x}
    decreases |s|
  {
    if s != [] && x.clickThroughRate < s[0].clickThroughRate {
      InsertPermutes(x, s[1..]);
      assert s == [s[0]] + s[1..];
    }
  }

  /** Inserting an element no higher than `bound` keeps every CTR at most `bound`. */
  lemma {:induction false} InsertStaysBelow(x: TargetingGroup, s: seq<TargetingGroup>, bound: real)
    requires x.clickThroughRate <= bound
    requires forall k | 0 <= k < |s| :: s[k].clickThroughRate <= bound
    ensures forall k | 0 <= k < |InsertByCtr(x, s)| :: InsertByCtr(x, s)[k].clickThroughRate <= bound
    decreases |s|
  {
    if s != [] && x.clickThroughRate < s[0].clickThroughRate {
      InsertStaysBelow(x, s[1..], bound);
    }
  }

  /** Inserting into a sequence ordered by CTR keeps it ordered. */
  lemma {:induction false} InsertKeepsDescending(x: TargetingGroup, s: seq<TargetingGroup>)
    requires DescendingByCtr(s)
    ensures DescendingByCtr(InsertByCtr(x, s))
    decreases |s|
  {
    if s != [] && x.clickThroughRate < s[0].clickThroughRate {
      var r := InsertByCtr(x, s[1..]);
      InsertKeepsDescending(x, s[1..]);
      InsertStaysBelow(x, s[1..], s[0].clickThroughRate);
      var out := [s[0]] + r;
      forall i, j | 0 <= i < j < |out| ensures out[i].clickThroughRate >= out[j].clickThroughRate {
        assert out[j] == r[j - 1];
        if i > 0 {
          assert out[i] == r[i - 1];
        }
      }
    }
  }

  /** `WithCtr` of a sequence with a known first element. */
  lemma WithCtrCons(y: TargetingGroup, t: seq<TargetingGroup>, ctr: real)
    ensures WithCtr([y] + t, ctr) == (if y.clickThroughRate == ctr then [y] else []) + WithCtr(t, ctr)
  {
    assert ([y] + t)[1..] == t;
  }

  /** Inserting `x` places it before every element of the same CTR. */
  lemma {:induction false} InsertIsStable(x: TargetingGroup, s: seq<TargetingGroup>, ctr: real)
    ensures WithCtr(InsertByCtr(x, s), ctr) ==
            (if x.clickThroughRate == ctr then [x] else []) + WithCtr(s, ctr)
    decreases |s|
  {
    if s == [] || s[0].clickThroughRate <= x.clickThroughRate {
      WithCtrCons(x, s, ctr);
    } else {
      var r := InsertByCtr(x, s[1..]);
      InsertIsStable(x, s[1..], ctr);
      WithCtrCons(s[0], r, ctr);
      WithCtrCons(s[0], s[1..], ctr);
      assert s == [s[0]] + s[1..];
      // x and s[0] have different CTRs, so at most one of them is kept
      if x.clickThroughRate == ctr {
        assert WithCtr(InsertByCtr(x, s), ctr) == [x] + WithCtr(s[1..], ctr);
      } else {
        assert WithCtr(InsertByCtr(x, s), ctr) == WithCtr(s, ctr);
      }
    }
  }

  /**
   * The sort yields a permutation of its input, ordered by CTR with the highest
   * first, and it is stable: for every CTR value the elements carrying it appear
   * in the same order as in the input.
   */
  lemma {:induction false} SortProperties(s: seq<TargetingGroup>)
    ensures multiset(SortByCtrDescending(s)) == multiset(s)
    ensures DescendingByCtr(SortByCtrDescending(s))
    ensures forall ctr :: WithCtr(SortByCtrDescending(s), ctr) == WithCtr(s, ctr)
    decreases |s|
  {
    if s != [] {
      SortProperties(s[1..]);
      assert s == [s[0]] + s[1..];
      var t := SortByCtrDescending(s[1..]);
      InsertPermutes(s[0], t);
      InsertKeepsDescending(s[0], t);
      forall ctr ensures WithCtr(SortByCtrDescending(s), ctr) == WithCtr(s, ctr) {
        InsertIsStable(s[0], t, ctr);
      }
    }
  }

  /** findFirst after the sort takes the first element of the input with the largest CTR. */
  lemma {:induction false} SortHeadIsFirstMax(s: seq<TargetingGroup>)
    requires s != []
    ensures SortByCtrDescending(s) != []
    ensures SortByCtrDescending(s)[0] == s[FirstMaxIndex(s)]
    decreases |s|
  {
    if |s| > 1 {
      SortHeadIsFirstMax(s[1..]);
    }
  }
}
