/**
 * The optimizing stage (`optimizeResults`): per condition, only the tightest
 * bounds survive, and the values of `eq` and of `neq` are merged into one list.
 */
module Optimizer {
  import opened Builtins
  import opened Constraints
  import opened Grouping

  /** Every condition that occurs in a scalar-valued list has at least one value. */
  lemma HasValues(rs: seq<Constraint>, c: Condition)
    requires AllScalar(rs) && c in CondsOf(rs)
    ensures |ValuesOf(rs, c)| > 0
  {
    var i :| 0 <= i < |rs| && CondsOf(rs)[i] == c;
    assert rs[i] in rs;
    assert rs[i].value.n in ValuesOf(rs, c);
  }

  /**
   * What survives of the constraints with condition `c`: those at the largest
   * value for `gt`/`gte`, at the smallest for `lt`/`lte` (nothing when there
   * is no value), one list of the distinct values for `eq`/`neq`.
   */
  function Survivors(rs: seq<Constraint>, c: Condition): (r: Result<seq<Constraint>>)
    ensures r.Ok? <==> IsKnown(c)
    ensures r.Err? ==> r.error == UndefinedCondition(c)
    ensures r.Ok? ==> forall x :: x in r.value ==> x.condition == c
  {
    var vs := ValuesOf(rs, c);
    if c == Gt || c == Gte then Ok(if vs == [] then [] else Matching(rs, c, MaxOf(vs)))
    else if c == Lt || c == Lte then Ok(if vs == [] then [] else Matching(rs, c, MinOf(vs)))
    else if c == Neq || c == Eq then Ok([Constraint(c, List(Distinct(vs)))])
    else Err(UndefinedCondition(c))
  }

  /** The survivors of each condition of `cs` in turn, or the first error. */
  function SurvivorsOf(rs: seq<Constraint>, cs: seq<Condition>): (r: Result<seq<Constraint>>)
  {
    if cs == [] then Ok([])
    else
      match SurvivorsOf(rs, cs[..|cs| - 1])
      case Err(e) => Err(e)
      case Ok(prefix) =>
        match Survivors(rs, cs[|cs| - 1])
        case Err(e) => Err(e)
        case Ok(part) => Ok(prefix + part)
  }

  /** The optimized list: conditions in first-seen order, each with its survivors. */
  function Optimized(rs: seq<Constraint>): Result<seq<Constraint>>
  {
    SurvivorsOf(rs, Distinct(CondsOf(rs)))
  }

  /** Once a condition fails, the survivors of any longer list of conditions fail with it. */
  lemma {:induction false} SurvivorsOfFailsAt(rs: seq<Constraint>, cs: seq<Condition>, i: nat)
    requires i < |cs| && SurvivorsOf(rs, cs[..i]).Ok? && !IsKnown(cs[i])
    ensures SurvivorsOf(rs, cs) == Err(UndefinedCondition(cs[i]))
  {
    if |cs| == i + 1 {
      assert cs[..|cs| - 1] == cs[..i];
    } else {
      var init := cs[..|cs| - 1];
      assert init[..i] == cs[..i] && init[i] == cs[i];
      SurvivorsOfFailsAt(rs, init, i);
    }
  }

  /** The survivors of `c`, read off its group: the bucket of the largest or smallest key, or the keys. */
  lemma GroupSurvivors(rs: seq<Constraint>, g: Group, c: Condition)
    requires IsGroupOf(g, rs, c)
    ensures |g.keys| > 0 ==> MaxOf(g.keys) in g.buckets && MinOf(g.keys) in g.buckets
    ensures (c == Gt || c == Gte) && |g.keys| > 0 ==> Survivors(rs, c) == Ok(g.buckets[MaxOf(g.keys)])
    ensures (c == Lt || c == Lte) && |g.keys| > 0 ==> Survivors(rs, c) == Ok(g.buckets[MinOf(g.keys)])
    ensures |g.keys| == 0 && !(c == Neq || c == Eq) && IsKnown(c) ==> Survivors(rs, c) == Ok([])
    ensures c == Neq || c == Eq ==> Survivors(rs, c) == Ok([Constraint(c, List(g.keys))])
  {
    var vs := ValuesOf(rs, c);
    if |vs| > 0 {
      assert vs[0] in g.keys;
      MaxOfDistinct(vs);
      MinOfDistinct(vs);
    }
  }

  /** `SurvivorsOf` over one more condition of `cs`. */
  lemma SurvivorsOfPrefix(rs: seq<Constraint>, cs: seq<Condition>, i: nat)
    requires i < |cs|
    ensures SurvivorsOf(rs, cs[..i + 1]) ==
      match SurvivorsOf(rs, cs[..i])
      case Err(e) => Err(e)
      case Ok(prefix) =>
        match Survivors(rs, cs[i])
        case Err(e) => Err(e)
        case Ok(part) => Ok(prefix + part)
  {
    assert cs[..i + 1][..i] == cs[..i];
  }

  /**
   * `optimizeResults`: with `optimize` off the list is returned unchanged;
   * otherwise it is grouped and each group reduced to its survivors.
   */
  method OptimizeResults(results: seq<Constraint>, optimize: bool) returns (r: Result<seq<Constraint>>)
    requires AllScalar(results)
    ensures !optimize ==> r == Ok(results)
    ensures optimize ==> r == Optimized(results)
  {
    if !optimize {
      return Ok(results);
    }
    var groups := GroupArray(results);
    ghost var cs := Distinct(CondsOf(results));
    var newConstraints := [];
    for i := 0 to |groups|
      invariant SurvivorsOf(results, cs[..i]) == Ok(newConstraints)
    {
      var g := groups[i];
      ghost var c := cs[i];
      assert IsGroupOf(g, results, c);
      GroupSurvivors(results, g, c);
      SurvivorsOfPrefix(results, cs, i);
      if g.condition == Gt || g.condition == Gte {
        if |g.keys| > 0 {
          var max := MaxOf(g.keys);
          newConstraints := newConstraints + g.buckets[max];
        } else {
          assert newConstraints + [] == newConstraints;
        }
      } else if g.condition == Lt || g.condition == Lte {
        if |g.keys| > 0 {
          var min := MinOf(g.keys);
          newConstraints := newConstraints + g.buckets[min];
        } else {
          assert newConstraints + [] == newConstraints;
        }
      } else if g.condition == Neq || g.condition == Eq {
        newConstraints := newConstraints + [Constraint(g.condition, List(g.keys))];
      } else {
        SurvivorsOfFailsAt(results, cs, i);
        return Err(UndefinedCondition(g.condition));
      }
    }
    assert cs[..|groups|] == cs;
    r := Ok(newConstraints);
  }

  lemma {:induction false} WithCondAppend(a: seq<Constraint>, b: seq<Constraint>, c: Condition)
    ensures WithCond(a + b, c) == WithCond(a, c) + WithCond(b, c)
  {
    if b != [] {
      var b' := b[..|b| - 1];
      WithCondAppend(a, b', c);
      assert (a + b)[..|a + b| - 1] == a + b';
    } else {
      assert a + b == a;
    }
  }

  /** Selecting a condition from a list of that one condition: all or nothing. */
  lemma {:induction false} WithCondUniform(s: seq<Constraint>, d: Condition, c: Condition)
    requires forall x :: x in s ==> x.condition == d
    ensures WithCond(s, c) == if c == d then s else []
  {
    if s != [] {
      var init, last := s[..|s| - 1], s[|s| - 1];
      assert s == init + [last];
      assert forall x :: x in init ==> x in s;
      WithCondUniform(init, d, c);
    }
  }

  /** One step of `SurvivorsOf`: the survivors of all but the last condition, then those of the last. */
  lemma SurvivorsOfStep(rs: seq<Constraint>, cs: seq<Condition>)
    requires cs != []
    ensures var prev := SurvivorsOf(rs, cs[..|cs| - 1]);
      && (SurvivorsOf(rs, cs).Ok? <==> prev.Ok? && IsKnown(cs[|cs| - 1]))
      && (SurvivorsOf(rs, cs).Ok? ==>
            SurvivorsOf(rs, cs).value == prev.value + Survivors(rs, cs[|cs| - 1]).value)
      && (SurvivorsOf(rs, cs).Err? ==>
            SurvivorsOf(rs, cs).error == if prev.Err? then prev.error else UndefinedCondition(cs[|cs| - 1]))
  {
  }

  lemma {:induction false} SurvivorsOfOk(rs: seq<Constraint>, cs: seq<Condition>)
    ensures SurvivorsOf(rs, cs).Ok? <==> forall i :: 0 <= i < |cs| ==> IsKnown(cs[i])
  {
    if cs != [] {
      SurvivorsOfStep(rs, cs);
      var init := cs[..|cs| - 1];
      SurvivorsOfOk(rs, init);
      if SurvivorsOf(rs, cs).Ok? {
        forall i | 0 <= i < |cs| ensures IsKnown(cs[i]) {
          if i < |init| {
            assert init[i] == cs[i];
          }
        }
      } else if SurvivorsOf(rs, init).Err? {
        var i :| 0 <= i < |init| && !IsKnown(init[i]);
        assert init[i] == cs[i];
      }
    }
  }

  lemma {:induction false} SurvivorsOfErr(rs: seq<Constraint>, cs: seq<Condition>)
    requires SurvivorsOf(rs, cs).Err?
    ensures exists c :: c in cs && !IsKnown(c) && SurvivorsOf(rs, cs).error == UndefinedCondition(c)
  {
    SurvivorsOfStep(rs, cs);
    var init := cs[..|cs| - 1];
    if SurvivorsOf(rs, init).Err? {
      SurvivorsOfErr(rs, init);
      var c :| c in init && !IsKnown(c) && SurvivorsOf(rs, init).error == UndefinedCondition(c);
      assert c in cs;
    } else {
      assert cs[|cs| - 1] in cs;
    }
  }

  /** Appending constraints that all have condition `d` to a list. */
  lemma WithCondSnoc(prev: seq<Constraint>, part: seq<Constraint>, d: Condition, c: Condition)
    requires forall x :: x in part ==> x.condition == d
    ensures WithCond(prev + part, c) == WithCond(prev, c) + (if c == d then part else [])
  {
    WithCondAppend(prev, part, c);
    WithCondUniform(part, d, c);
  }

  /** Among the survivors of distinct conditions, those of `c` are exactly the survivors of `c`. */
  lemma {:induction false} SurvivorsOfByCondition(rs: seq<Constraint>, cs: seq<Condition>, c: Condition)
    requires NoDuplicates(cs) && SurvivorsOf(rs, cs).Ok?
    ensures c in cs ==> Survivors(rs, c).Ok? && WithCond(SurvivorsOf(rs, cs).value, c) == Survivors(rs, c).value
    ensures c !in cs ==> WithCond(SurvivorsOf(rs, cs).value, c) == []
  {
    if cs != [] {
      var init := cs[..|cs| - 1];
      var d := cs[|cs| - 1];
      SurvivorsOfStep(rs, cs);
      assert NoDuplicates(init) && d !in init;
      assert c in cs <==> c in init || c == d by {
        assert cs == init + [d];
      }
      SurvivorsOfByCondition(rs, init, c);
      WithCondSnoc(SurvivorsOf(rs, init).value, Survivors(rs, d).value, d, c);
    }
  }

  /** The survivors of condition `c` are the constraints of `c` in the optimized list. */
  lemma OptimizedByCondition(rs: seq<Constraint>, c: Condition)
    requires Optimized(rs).Ok?
    ensures c in CondsOf(rs) ==> Survivors(rs, c).Ok?
    ensures WithCond(Optimized(rs).value, c) == if c in CondsOf(rs) then Survivors(rs, c).value else []
  {
    SurvivorsOfByCondition(rs, Distinct(CondsOf(rs)), c);
  }

  /**
   * Optimizing fails exactly when some constraint has a condition outside the
   * six, and then with an `UndefinedCondition` error naming such a condition.
   */
  lemma OptimizedFails(rs: seq<Constraint>)
    ensures Optimized(rs).Err? <==> exists x :: x in rs && !IsKnown(x.condition)
    ensures Optimized(rs).Err? ==>
      exists x :: x in rs && !IsKnown(x.condition) && Optimized(rs).error == UndefinedCondition(x.condition)
  {
    var cs := Distinct(CondsOf(rs));
    SurvivorsOfOk(rs, cs);
    if Optimized(rs).Err? {
      SurvivorsOfErr(rs, cs);
    } else {
      forall c | c in cs ensures IsKnown(c) {
        var i :| 0 <= i < |cs| && cs[i] == c;
      }
    }
    forall x | x in rs ensures x.condition in cs {
      var i :| 0 <= i < |rs| && rs[i] == x;
      assert CondsOf(rs)[i] == x.condition;
    }
    forall c | c in cs ensures exists x :: x in rs && x.condition == c {
      var i :| 0 <= i < |rs| && CondsOf(rs)[i] == c;
      assert rs[i] in rs;
    }
  }

  /**
   * Lower bounds (`gt`, `gte`): a condition that occurs keeps at least one
   * constraint; every survivor is an input constraint at the largest value
   * seen for its condition, and every copy of it is kept.
   */
  lemma LowerBoundsTightest(rs: seq<Constraint>, c: Condition)
    requires AllScalar(rs) && Optimized(rs).Ok?
    requires c == Gt || c == Gte
    ensures var kept := WithCond(Optimized(rs).value, c);
      && (|kept| > 0 <==> c in CondsOf(rs))
      && (forall x :: x in kept ==>
            && x in rs && x.value.Scalar?
            && forall y :: y in rs && y.condition == c ==> y.value.n <= x.value.n)
      && (forall x :: x in kept ==> |kept| == multiset(rs)[x])
  {
    OptimizedByCondition(rs, c);
    if c in CondsOf(rs) {
      var vs := ValuesOf(rs, c);
      var m := MaxOf(vs);
      var kept := Matching(rs, c, m);
      assert Constraint(c, Scalar(m)) in rs;
      forall y | y in rs && y.condition == c ensures y.value.n <= m {
        assert y == Constraint(c, Scalar(y.value.n));
        assert y.value.n in vs;
      }
    }
  }

  /**
   * Upper bounds (`lt`, `lte`): a condition that occurs keeps at least one
   * constraint; every survivor is an input constraint at the smallest value
   * seen for its condition, and every copy of it is kept.
   */
  lemma UpperBoundsTightest(rs: seq<Constraint>, c: Condition)
    requires AllScalar(rs) && Optimized(rs).Ok?
    requires c == Lt || c == Lte
    ensures var kept := WithCond(Optimized(rs).value, c);
      && (|kept| > 0 <==> c in CondsOf(rs))
      && (forall x :: x in kept ==>
            && x in rs && x.value.Scalar?
            && forall y :: y in rs && y.condition == c ==> x.value.n <= y.value.n)
      && (forall x :: x in kept ==> |kept| == multiset(rs)[x])
  {
    OptimizedByCondition(rs, c);
    if c in CondsOf(rs) {
      var vs := ValuesOf(rs, c);
      var m := MinOf(vs);
      assert Constraint(c, Scalar(m)) in rs;
      forall y | y in rs && y.condition == c ensures m <= y.value.n {
        assert y == Constraint(c, Scalar(y.value.n));
        assert y.value.n in vs;
      }
    }
  }

  lemma {:induction false} ValuesOfPrefix(rs: seq<Constraint>, k: nat, c: Condition)
    requires k <= |rs|
    ensures ValuesOf(rs[..k], c) <= ValuesOf(rs, c)
    decreases |rs| - k
  {
    if k < |rs| {
      var init := rs[..|rs| - 1];
      assert init[..k] == rs[..k];
      ValuesOfPrefix(init, k, c);
    } else {
      assert rs[..k] == rs;
    }
  }

  /**
   * `eq` and `neq` each survive as at most one constraint, present exactly
   * when the condition occurs; its list holds every value seen with the
   * condition, once each, in first-seen order: the distinct values of any
   * prefix of the input are a prefix of the list.
   */
  lemma EqualitiesMerged(rs: seq<Constraint>, c: Condition)
    requires AllScalar(rs) && Optimized(rs).Ok?
    requires c == Eq || c == Neq
    ensures var kept := WithCond(Optimized(rs).value, c);
      && |kept| <= 1
      && (|kept| == 1 <==> c in CondsOf(rs))
      && (|kept| == 1 ==>
            && kept[0].value.List?
            && NoDuplicates(kept[0].value.items)
            && (forall v :: v in kept[0].value.items <==> Constraint(c, Scalar(v)) in rs)
            && (forall k :: 0 <= k <= |rs| ==> Distinct(ValuesOf(rs[..k], c)) <= kept[0].value.items))
  {
    KeptEqualities(rs, c);
    FirstSeenOrder(rs, c);
  }

  /** The distinct values seen with `c` in any prefix of the input are a prefix of all of them. */
  lemma FirstSeenOrder(rs: seq<Constraint>, c: Condition)
    ensures forall k :: 0 <= k <= |rs| ==> Distinct(ValuesOf(rs[..k], c)) <= Distinct(ValuesOf(rs, c))
  {
    var vs := ValuesOf(rs, c);
    forall k | 0 <= k <= |rs| ensures Distinct(ValuesOf(rs[..k], c)) <= Distinct(vs) {
      ValuesOfPrefix(rs, k, c);
      var m := |ValuesOf(rs[..k], c)|;
      assert ValuesOf(rs[..k], c) == vs[..m];
      DistinctPrefix(vs, m);
    }
  }

  /** The optimized list is what the SQL emitter accepts: known conditions, non-empty lists. */
  lemma OptimizedEmittable(rs: seq<Constraint>)
    requires AllScalar(rs) && Optimized(rs).Ok?
    ensures forall x :: x in Optimized(rs).value ==>
      && x.condition in CondsOf(rs)
      && IsKnown(x.condition)
      && (x.value.List? ==> |x.value.items| > 0)
  {
    forall x | x in Optimized(rs).value
      ensures x.condition in CondsOf(rs) && IsKnown(x.condition) && (x.value.List? ==> |x.value.items| > 0)
    {
      var c := x.condition;
      OptimizedByCondition(rs, c);
      assert x in WithCond(Optimized(rs).value, c);
      assert c in CondsOf(rs);
      if x.value.List? {
        HasValues(rs, c);
        var vs := ValuesOf(rs, c);
        assert x.value.items == Distinct(vs);
        assert vs[0] in Distinct(vs);
      }
    }
  }

  /**
   * Lower bounds are conjunctive: a field value satisfies all the input bounds
   * of a condition exactly when it satisfies the survivors.
   */
  lemma LowerBoundsKeepMeaning(rs: seq<Constraint>, c: Condition, z: int)
    requires AllScalar(rs) && Optimized(rs).Ok?
    requires c == Gt || c == Gte
    ensures (forall x :: x in WithCond(rs, c) ==> Holds(x, z)) <==>
            (forall y :: y in WithCond(Optimized(rs).value, c) ==> Holds(y, z))
  {
    var kept := WithCond(Optimized(rs).value, c);
    LowerBoundsTightest(rs, c);
    if kept != [] {
      var top := kept[0];
      assert top in kept;
      HoldsScalar(top, z);
      if Holds(top, z) {
        forall x | x in WithCond(rs, c) ensures Holds(x, z) {
          assert x.value.n <= top.value.n;
          HoldsScalar(x, z);
        }
      }
    }
  }

  /**
   * Upper bounds are conjunctive: a field value satisfies all the input bounds
   * of a condition exactly when it satisfies the survivors.
   */
  lemma UpperBoundsKeepMeaning(rs: seq<Constraint>, c: Condition, z: int)
    requires AllScalar(rs) && Optimized(rs).Ok?
    requires c == Lt || c == Lte
    ensures (forall x :: x in WithCond(rs, c) ==> Holds(x, z)) <==>
            (forall y :: y in WithCond(Optimized(rs).value, c) ==> Holds(y, z))
  {
    var kept := WithCond(Optimized(rs).value, c);
    UpperBoundsTightest(rs, c);
    if kept != [] {
      var bottom := kept[0];
      assert bottom in kept;
      HoldsScalar(bottom, z);
      if Holds(bottom, z) {
        forall x | x in WithCond(rs, c) ensures Holds(x, z) {
          assert bottom.value.n <= x.value.n;
          HoldsScalar(x, z);
        }
      }
    }
  }

  /** What is left of `eq` or `neq` after optimizing: one merged list, when the condition occurs. */
  lemma KeptEqualities(rs: seq<Constraint>, c: Condition)
    requires Optimized(rs).Ok?
    requires c == Eq || c == Neq
    ensures WithCond(Optimized(rs).value, c) ==
      if c in CondsOf(rs) then [Constraint(c, List(Distinct(ValuesOf(rs, c))))] else []
  {
    OptimizedByCondition(rs, c);
  }

  /**
   * `neq` is conjunctive too: a field value avoids every input value exactly
   * when it is outside the merged list.
   */
  lemma NotEqualsKeepMeaning(rs: seq<Constraint>, z: int)
    requires AllScalar(rs) && Optimized(rs).Ok?
    ensures (forall x :: x in WithCond(rs, Neq) ==> Holds(x, z)) <==>
            (forall y :: y in WithCond(Optimized(rs).value, Neq) ==> Holds(y, z))
  {
    KeptEqualities(rs, Neq);
    MergedValues(rs, Neq, z);
    forall x | x in WithCond(rs, Neq) ensures Holds(x, z) <==> x.value.n != z {
      HoldsScalar(x, z);
    }
    if Neq in CondsOf(rs) {
      var merged := Constraint(Neq, List(Distinct(ValuesOf(rs, Neq))));
      assert Holds(merged, z) <==> z !in Distinct(ValuesOf(rs, Neq));
    }
  }

  /**
   * The `eq` constraints are alternatives: a field value equals one of the
   * input values exactly when it is in the merged list.
   */
  lemma EqualsKeepMeaning(rs: seq<Constraint>, z: int)
    requires AllScalar(rs) && Optimized(rs).Ok?
    ensures (exists x :: x in WithCond(rs, Eq) && Holds(x, z)) <==>
            (exists y :: y in WithCond(Optimized(rs).value, Eq) && Holds(y, z))
  {
    KeptEqualities(rs, Eq);
    MergedValues(rs, Eq, z);
    forall x | x in WithCond(rs, Eq) ensures Holds(x, z) <==> x.value.n == z {
      HoldsScalar(x, z);
    }
    if Eq in CondsOf(rs) {
      var merged := Constraint(Eq, List(Distinct(ValuesOf(rs, Eq))));
      assert Holds(merged, z) <==> z in Distinct(ValuesOf(rs, Eq));
      assert merged in WithCond(Optimized(rs).value, Eq);
    }
  }

  /** A value is carried by some constraint of `c` exactly when it is in the merged list of `c`. */
  lemma MergedValues(rs: seq<Constraint>, c: Condition, z: int)
    requires AllScalar(rs)
    ensures forall x :: x in WithCond(rs, c) ==> x.value.Scalar?
    ensures (exists x :: x in WithCond(rs, c) && x.value.n == z) <==> z in Distinct(ValuesOf(rs, c))
    ensures c !in CondsOf(rs) ==> WithCond(rs, c) == []
  {
    if z in ValuesOf(rs, c) {
      assert Constraint(c, Scalar(z)) in WithCond(rs, c);
    }
    forall x | x in WithCond(rs, c) ensures x.value.n in ValuesOf(rs, c) && x.condition in CondsOf(rs) {
      assert x == Constraint(c, Scalar(x.value.n));
      var i :| 0 <= i < |rs| && rs[i] == x;
      assert CondsOf(rs)[i] == c;
    }
  }
}
