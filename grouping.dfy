/**
 * The two-level grouping the optimizer runs first (`Formatter::groupArray`
 * with the keys `condition` and `value`): constraints grouped by condition,
 * then by value, both levels in first-seen order.
 */
module Grouping {
  import opened Builtins
  import opened Constraints

  /** The condition of each constraint, in order. */
  function CondsOf(rs: seq<Constraint>): (cs: seq<Condition>)
    ensures |cs| == |rs|
    ensures forall i :: 0 <= i < |rs| ==> cs[i] == rs[i].condition
  {
    if rs == [] then [] else CondsOf(rs[..|rs| - 1]) + [rs[|rs| - 1].condition]
  }

  /** The constraints with condition `c`, in order. */
  function WithCond(rs: seq<Constraint>, c: Condition): (r: seq<Constraint>)
    ensures forall x :: x in r <==> x in rs && x.condition == c
  {
    if rs == [] then []
    else
      var p := WithCond(rs[..|rs| - 1], c);
      assert rs == rs[..|rs| - 1] + [rs[|rs| - 1]];
      if rs[|rs| - 1].condition == c then p + [rs[|rs| - 1]] else p
  }

  /** The scalar values that occur with condition `c`, in order, repeats included. */
  function ValuesOf(rs: seq<Constraint>, c: Condition): (vs: seq<int>)
    ensures forall v :: v in vs <==> Constraint(c, Scalar(v)) in rs
  {
    if rs == [] then []
    else
      var p := ValuesOf(rs[..|rs| - 1], c);
      var x := rs[|rs| - 1];
      assert rs == rs[..|rs| - 1] + [x];
      if x.condition == c && x.value.Scalar? then p + [x.value.n] else p
  }

  /** Every occurrence of `{c, v}` in `rs`: the bucket `groupArray` files under `c`, `v`. */
  function Matching(rs: seq<Constraint>, c: Condition, v: int): (ms: seq<Constraint>)
    ensures forall x :: x in ms ==> x == Constraint(c, Scalar(v))
    ensures |ms| == multiset(rs)[Constraint(c, Scalar(v))]
  {
    if rs == [] then []
    else
      var p := Matching(rs[..|rs| - 1], c, v);
      var x := rs[|rs| - 1];
      assert rs == rs[..|rs| - 1] + [x];
      if x == Constraint(c, Scalar(v)) then p + [x] else p
  }

  /** One outer group: its condition, its value keys in first-seen order, and the bucket of each key. */
  datatype Group = Group(condition: Condition, keys: seq<int>, buckets: map<int, seq<Constraint>>)

  ghost predicate IsGroupOf(g: Group, rs: seq<Constraint>, c: Condition) {
    && g.condition == c
    && g.keys == Distinct(ValuesOf(rs, c))
    && (forall k :: k in g.buckets <==> k in g.keys)
    && (forall k :: k in g.buckets ==> g.buckets[k] == Matching(rs, c, k))
  }

  /** `gs` is `rs` grouped by condition and then by value, both in first-seen order. */
  ghost predicate GroupedBy(gs: seq<Group>, rs: seq<Constraint>) {
    var cs := Distinct(CondsOf(rs));
    && |gs| == |cs|
    && forall j :: 0 <= j < |gs| ==> IsGroupOf(gs[j], rs, cs[j])
  }

  /** How the condition order changes when one constraint is appended. */
  lemma UnfoldConds(p: seq<Constraint>, x: Constraint)
    ensures CondsOf(p + [x]) == CondsOf(p) + [x.condition]
    ensures Distinct(CondsOf(p + [x])) ==
      if x.condition in CondsOf(p) then Distinct(CondsOf(p)) else Distinct(CondsOf(p)) + [x.condition]
  {
    assert (p + [x])[..|p|] == p;
    assert (CondsOf(p) + [x.condition])[..|p|] == CondsOf(p);
  }

  lemma UnfoldValues(p: seq<Constraint>, x: Constraint, c: Condition)
    ensures ValuesOf(p + [x], c) ==
      if x.condition == c && x.value.Scalar? then ValuesOf(p, c) + [x.value.n] else ValuesOf(p, c)
  {
    assert (p + [x])[..|p|] == p;
  }

  lemma UnfoldMatching(p: seq<Constraint>, x: Constraint, c: Condition, k: int)
    ensures Matching(p + [x], c, k) ==
      if x == Constraint(c, Scalar(k)) then Matching(p, c, k) + [x] else Matching(p, c, k)
  {
    assert (p + [x])[..|p|] == p;
  }

  /** Filing `x` under its condition, which already has the group `g`. */
  lemma FileInGroup(g: Group, p: seq<Constraint>, x: Constraint, g': Group)
    requires x.value.Scalar? && IsGroupOf(g, p, x.condition)
    requires var v := x.value.n;
      g' == if v in g.buckets then g.(buckets := g.buckets[v := g.buckets[v] + [x]])
            else g.(keys := g.keys + [v], buckets := g.buckets[v := [x]])
    ensures IsGroupOf(g', p + [x], x.condition)
  {
    var c, v := x.condition, x.value.n;
    var vs := ValuesOf(p, c);
    UnfoldValues(p, x, c);
    DistinctSnoc(vs, v);
    assert v in g.buckets <==> v in vs;
    assert g'.keys == Distinct(ValuesOf(p + [x], c));
    forall k | k in g'.buckets ensures g'.buckets[k] == Matching(p + [x], c, k) {
      UnfoldMatching(p, x, c, k);
      if k == v && v !in g.buckets {
        assert Constraint(c, Scalar(v)) !in p;
        assert |Matching(p, c, v)| == 0;
      }
    }
  }

  /** A condition that does not occur has no values and empty buckets. */
  lemma {:induction false} Unseen(p: seq<Constraint>, c: Condition, k: int)
    requires c !in CondsOf(p)
    ensures ValuesOf(p, c) == [] && Matching(p, c, k) == []
  {
    if p != [] {
      var init := p[..|p| - 1];
      assert CondsOf(p) == CondsOf(init) + [p[|p| - 1].condition];
      Unseen(init, c, k);
    }
  }

  /** Opening a new group for `x`, whose condition has not been seen yet. */
  lemma OpenGroup(p: seq<Constraint>, x: Constraint)
    requires x.value.Scalar? && x.condition !in CondsOf(p)
    ensures IsGroupOf(Group(x.condition, [x.value.n], map[x.value.n := [x]]), p + [x], x.condition)
  {
    var c, v := x.condition, x.value.n;
    Unseen(p, c, v);
    UnfoldValues(p, x, c);
    DistinctSnoc([], v);
    UnfoldMatching(p, x, c, v);
  }

  /** A group of another condition is unaffected by appending `x`. */
  lemma KeepGroup(g: Group, p: seq<Constraint>, x: Constraint, c: Condition)
    requires c != x.condition && IsGroupOf(g, p, c)
    ensures IsGroupOf(g, p + [x], c)
  {
    UnfoldValues(p, x, c);
    forall k | k in g.buckets ensures g.buckets[k] == Matching(p + [x], c, k) {
      UnfoldMatching(p, x, c, k);
    }
  }

  /** Filing `x` into the existing group `j` keeps `gs` a grouping of the longer list. */
  lemma FileStep(gs: seq<Group>, p: seq<Constraint>, x: Constraint, j: nat, g: Group)
    requires x.value.Scalar? && GroupedBy(gs, p)
    requires j < |gs| && gs[j].condition == x.condition
    requires var v := x.value.n;
      g == if v in gs[j].buckets then gs[j].(buckets := gs[j].buckets[v := gs[j].buckets[v] + [x]])
           else gs[j].(keys := gs[j].keys + [v], buckets := gs[j].buckets[v := [x]])
    ensures GroupedBy(gs[j := g], p + [x])
  {
    var cs := Distinct(CondsOf(p));
    UnfoldConds(p, x);
    assert x.condition in CondsOf(p) by {
      assert IsGroupOf(gs[j], p, cs[j]);
      assert cs[j] in cs;
    }
    assert Distinct(CondsOf(p + [x])) == cs;
    var gs' := gs[j := g];
    forall k | 0 <= k < |gs'| ensures IsGroupOf(gs'[k], p + [x], cs[k]) {
      assert IsGroupOf(gs[k], p, cs[k]);
      if k == j {
        FileInGroup(gs[j], p, x, g);
      } else {
        assert cs[k] != x.condition by {
          assert NoDuplicates(cs);
        }
        KeepGroup(gs[k], p, x, cs[k]);
      }
    }
  }

  /** Opening a group for an unseen condition keeps `gs` a grouping of the longer list. */
  lemma OpenStep(gs: seq<Group>, p: seq<Constraint>, x: Constraint)
    requires x.value.Scalar? && GroupedBy(gs, p) && x.condition !in CondsOf(p)
    ensures GroupedBy(gs + [Group(x.condition, [x.value.n], map[x.value.n := [x]])], p + [x])
  {
    var cs := Distinct(CondsOf(p));
    var g := Group(x.condition, [x.value.n], map[x.value.n := [x]]);
    var gs', cs' := gs + [g], cs + [x.condition];
    UnfoldConds(p, x);
    assert Distinct(CondsOf(p + [x])) == cs';
    forall k | 0 <= k < |gs'| ensures IsGroupOf(gs'[k], p + [x], cs'[k]) {
      if k < |gs| {
        assert gs'[k] == gs[k] && cs'[k] == cs[k];
        assert cs[k] in cs;
        KeepGroup(gs[k], p, x, cs[k]);
      } else {
        OpenGroup(p, x);
      }
    }
  }

  /** A condition without a group does not occur. */
  lemma Ungrouped(gs: seq<Group>, p: seq<Constraint>, c: Condition)
    requires GroupedBy(gs, p)
    requires forall j :: 0 <= j < |gs| ==> gs[j].condition != c
    ensures c !in CondsOf(p)
  {
  }

  /** `at` gives the position in `gs` of the group of each condition. */
  predicate Indexes(at: map<Condition, nat>, gs: seq<Group>) {
    && (forall c :: c in at ==> at[c] < |gs| && gs[at[c]].condition == c)
    && (forall j :: 0 <= j < |gs| ==> gs[j].condition in at)
  }

  /** Filing one constraint: into the group of its condition, or into a new group. */
  function Insert(gs: seq<Group>, at: map<Condition, nat>, x: Constraint): seq<Group>
    requires x.value.Scalar? && Indexes(at, gs)
  {
    var c, v := x.condition, x.value.n;
    if c in at then
      var g := gs[at[c]];
      if v in g.buckets then gs[at[c] := g.(buckets := g.buckets[v := g.buckets[v] + [x]])]
      else gs[at[c] := g.(keys := g.keys + [v], buckets := g.buckets[v := [x]])]
    else gs + [Group(c, [v], map[v := [x]])]
  }

  /** The index after filing `x`. */
  function InsertAt(gs: seq<Group>, at: map<Condition, nat>, x: Constraint): map<Condition, nat> {
    if x.condition in at then at else at[x.condition := |gs|]
  }

  lemma IndexStep(gs: seq<Group>, at: map<Condition, nat>, x: Constraint)
    requires x.value.Scalar? && Indexes(at, gs)
    ensures Indexes(InsertAt(gs, at, x), Insert(gs, at, x))
  {
  }

  /** One iteration of `GroupArray`: the groups of `rs[..i]` become those of `rs[..i + 1]`. */
  lemma GroupStep(gs: seq<Group>, rs: seq<Constraint>, i: nat, at: map<Condition, nat>)
    requires i < |rs| && rs[i].value.Scalar? && GroupedBy(gs, rs[..i]) && Indexes(at, gs)
    ensures GroupedBy(Insert(gs, at, rs[i]), rs[..i + 1])
  {
    var x := rs[i];
    var c, v := x.condition, x.value.n;
    assert rs[..i + 1] == rs[..i] + [x];
    var gs' := Insert(gs, at, x);
    if c in at {
      var j := at[c];
      FileStep(gs, rs[..i], x, j, gs'[j]);
    } else {
      Ungrouped(gs, rs[..i], c);
      OpenStep(gs, rs[..i], x);
    }
  }

  /**
   * `groupArray(['condition', 'value'], rs)`: one pass over the constraints,
   * filing each under its condition and then its value.
   */
  method GroupArray(rs: seq<Constraint>) returns (gs: seq<Group>)
    requires AllScalar(rs)
    ensures GroupedBy(gs, rs)
  {
    gs := [];
    var at: map<Condition, nat> := map[];
    for i := 0 to |rs|
      invariant GroupedBy(gs, rs[..i])
      invariant Indexes(at, gs)
    {
      var x := rs[i];
      assert x in rs;
      GroupStep(gs, rs, i, at);
      IndexStep(gs, at, x);
      gs, at := Insert(gs, at, x), InsertAt(gs, at, x);
    }
    assert rs[..|rs|] == rs;
  }
}
