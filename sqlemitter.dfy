/**
 * The emitting stage (`buildSqlParts`): each constraint of a filter becomes a
 * WHERE-clause fragment over `alias.field` with a named placeholder and the
 * value bound to it.
 */
module SqlEmitter {
  import opened Builtins
  import opened Constraints

  /** A field name with the constraints on it. */
  datatype Filter = Filter(field: string, constraints: seq<Constraint>)

  /** What is bound to a placeholder: one value, a list for `IN`, or PHP's `null`. */
  datatype Binding = BindOne(n: int) | BindMany(items: seq<int>) | BindNull

  /** One fragment: its SQL text, its placeholder name and the bound parameter. */
  datatype SqlPart = SqlPart(sql: string, placeholder: string, parameter: Binding)

  /** The emitter expects lists to be non-empty, as the optimizer makes them. */
  predicate Emittable(x: Constraint) {
    x.value.List? ==> |x.value.items| > 0
  }

  /** The placeholder prefix of a field: alias, `_`, field. */
  function PlaceholderBase(alias: string, field: string): string {
    alias + "_" + field
  }

  /** The placeholder of the `num`-th constraint (counting from 1): the first has no suffix. */
  function Placeholder(base: string, num: nat): (ph: string)
    ensures num <= 1 ==> ph == base
    ensures num > 1 ==> |ph| > |base| && ph[..|base|] == base && ph[|base|..] == NatToString(num)
  {
    if num > 1 then base + NatToString(num) else base
  }

  /** Within one filter no two constraints share a placeholder. */
  lemma PlaceholdersDistinct(base: string, i: nat, j: nat)
    requires 1 <= i && 1 <= j && i != j
    ensures Placeholder(base, i) != Placeholder(base, j)
  {
    if i > 1 && j > 1 && Placeholder(base, i) == Placeholder(base, j) {
      NatToStringInjective(i, j);
    }
  }

  /** A list value with more than one element is bound whole, with `IN`/`NOT IN`. */
  predicate Many(v: Value) {
    v.List? && |v.items| > 1
  }

  /** The SQL comparisons the emitter writes. */
  datatype Op = Greater | GreaterEq | Less | LessEq | Equal | NotEqual | In | NotIn

  function OpText(op: Op): string {
    match op
    case Greater => ">"
    case GreaterEq => ">="
    case Less => "<"
    case LessEq => "<="
    case Equal => "="
    case NotEqual => "!="
    case In => "IN"
    case NotIn => "NOT IN"
  }

  /** The SQL comparison a known condition is emitted with. */
  function Comparison(c: Condition, many: bool): (op: Op)
    requires IsKnown(c)
    ensures op.In? || op.NotIn? <==> many && (c == Eq || c == Neq)
  {
    match c
    case Gt => Greater
    case Gte => GreaterEq
    case Lt => Less
    case Lte => LessEq
    case Neq => if many then NotIn else NotEqual
    case Eq => if many then In else Equal
  }

  /** The fragment text: `alias.field op :ph`, or `alias.field op(:ph)` for a list. */
  function SqlText(alias: string, field: string, op: Op, ph: string): string {
    var column := alias + "." + field + " " + OpText(op);
    if op.In? || op.NotIn? then column + "(:" + ph + ")" else column + " :" + ph
  }

  /**
   * The fragment text begins with the qualified column and the operator, and
   * ends with the placeholder: ` :ph` for a single value, `(:ph)` for a list.
   */
  lemma SqlTextShape(alias: string, field: string, op: Op, ph: string)
    ensures var t := SqlText(alias, field, op, ph);
      && alias + "." + field + " " + OpText(op) <= t
      && ((op.In? || op.NotIn?) ==> |t| >= |ph| + 3 && t[|t| - |ph| - 3..] == "(:" + ph + ")")
      && (!(op.In? || op.NotIn?) ==> |t| >= |ph| + 2 && t[|t| - |ph| - 2..] == " :" + ph)
  {
  }

  /**
   * What a fragment selects for a column value `z`. A comparison with SQL
   * `NULL` is never true, so a `null` binding selects nothing.
   */
  predicate SqlHolds(op: Op, b: Binding, z: int) {
    match b
    case BindNull => false
    case BindOne(v) =>
      (match op
       case Greater => z > v
       case GreaterEq => z >= v
       case Less => z < v
       case LessEq => z <= v
       case Equal => z == v
       case NotEqual => z != v
       case _ => false)
    case BindMany(vs) =>
      (match op
       case In => z in vs
       case NotIn => z !in vs
       case _ => false)
  }

  /**
   * The fragment `buildSqlParts` writes for one constraint, as the code stands:
   * bounds bind the largest (`gt`, `gte`) or smallest (`lt`, `lte`) value;
   * `eq`/`neq` bind a list of several values whole, and otherwise the first
   * element of the list (`reset`), which for a single value is `null`.
   */
  function FragmentAsWritten(alias: string, field: string, x: Constraint, ph: string): (r: Result<SqlPart>)
    requires Emittable(x)
    ensures r.Ok? <==> IsKnown(x.condition)
    ensures r.Err? ==> r.error == UndefinedCondition(x.condition)
    ensures r.Ok? ==> r.value.placeholder == ph
    ensures r.Ok? ==> r.value.sql == SqlText(alias, field, Comparison(x.condition, Many(x.value)), ph)
  {
    var c := x.condition;
    var vs := Items(x.value);
    if !IsKnown(c) then Err(UndefinedCondition(c))
    else
      var binding :=
        if c == Gt || c == Gte then BindOne(MaxOf(vs))
        else if c == Lt || c == Lte then BindOne(MinOf(vs))
        else if Many(x.value) then BindMany(vs)
        else if x.value.List? then BindOne(vs[0])
        else BindNull;
      Ok(SqlPart(SqlText(alias, field, Comparison(c, Many(x.value)), ph), ph, binding))
  }

  /**
   * The fragment with a single `eq`/`neq` value bound as that value; every
   * other constraint is emitted as the code stands.
   */
  function Fragment(alias: string, field: string, x: Constraint, ph: string): (r: Result<SqlPart>)
    requires Emittable(x)
    ensures r.Ok? <==> IsKnown(x.condition)
    ensures r.Err? ==> r.error == UndefinedCondition(x.condition)
    ensures r.Ok? ==> r.value.placeholder == ph
    ensures r.Ok? ==> r.value.sql == SqlText(alias, field, Comparison(x.condition, Many(x.value)), ph)
  {
    if x.value.Scalar? && (x.condition == Eq || x.condition == Neq) then
      Ok(SqlPart(SqlText(alias, field, Comparison(x.condition, false), ph), ph, BindOne(x.value.n)))
    else FragmentAsWritten(alias, field, x, ph)
  }

  /** A fragment selects exactly the column values its constraint admits. */
  lemma FragmentMeaning(alias: string, field: string, x: Constraint, ph: string, z: int)
    requires Emittable(x) && IsKnown(x.condition)
    ensures Fragment(alias, field, x, ph).Ok?
    ensures SqlHolds(Comparison(x.condition, Many(x.value)), Fragment(alias, field, x, ph).value.parameter, z)
            <==> Holds(x, z)
  {
  }

  /**
   * As written, a single `eq` value (what an unoptimized parse produces) is
   * bound as `null`: the fragment selects no row, although the constraint
   * admits its own value.
   */
  lemma ScalarEqualityBindsNull(alias: string, field: string, n: int, ph: string)
    ensures var x := Constraint(Eq, Scalar(n));
      && FragmentAsWritten(alias, field, x, ph).Ok?
      && FragmentAsWritten(alias, field, x, ph).value.parameter == BindNull
      && Holds(x, n)
      && !SqlHolds(Comparison(Eq, false), FragmentAsWritten(alias, field, x, ph).value.parameter, n)
  {
    assert n in Items(Scalar(n));
  }

  /** The fragment of each constraint, the `i`-th at placeholder number `i + 1`. */
  function Fragments(alias: string, field: string, cs: seq<Constraint>): (fs: seq<Result<SqlPart>>)
    requires forall x :: x in cs ==> Emittable(x)
    ensures |fs| == |cs|
    ensures forall i :: 0 <= i < |cs| ==>
      Emittable(cs[i]) && fs[i] == Fragment(alias, field, cs[i], Placeholder(PlaceholderBase(alias, field), i + 1))
  {
    seq(|cs|, i requires 0 <= i < |cs| =>
      assert cs[i] in cs; Fragment(alias, field, cs[i], Placeholder(PlaceholderBase(alias, field), i + 1)))
  }

  /** What `buildSqlParts` returns: the fragments in order, or the first error. */
  function SqlParts(alias: string, field: string, cs: seq<Constraint>): Result<seq<SqlPart>>
    requires forall x :: x in cs ==> Emittable(x)
  {
    Collect(Fragments(alias, field, cs))
  }

  /**
   * `buildSqlParts`: one fragment per constraint, in order, with placeholders
   * `alias_field`, `alias_field2`, `alias_field3`, ...; the first constraint
   * with a condition outside the six aborts the whole call.
   */
  method BuildSqlParts(filter: Filter, tableAlias: string) returns (r: Result<seq<SqlPart>>)
    requires forall x :: x in filter.constraints ==> Emittable(x)
    ensures r == SqlParts(tableAlias, filter.field, filter.constraints)
  {
    var cs := filter.constraints;
    ghost var frags := Fragments(tableAlias, filter.field, cs);
    var sql: seq<SqlPart> := [];
    var fieldPhBase := tableAlias + "_" + filter.field;
    var num := 1;
    for k := 0 to |cs|
      invariant num == k + 1
      invariant Collect(frags[..k]) == Ok(sql)
    {
      var fieldPh := if num > 1 then fieldPhBase + NatToString(num) else fieldPhBase;
      num := num + 1;
      var x := cs[k];
      assert x in cs;
      assert fieldPh == Placeholder(PlaceholderBase(tableAlias, filter.field), k + 1);
      var part := Fragment(tableAlias, filter.field, x, fieldPh);
      assert frags[k] == part;
      if part.Err? {
        CollectStops(frags, k);
        return Err(UndefinedCondition(x.condition));
      }
      CollectStep(frags, k, sql);
      sql := sql + [part.value];
    }
    assert frags[..|cs|] == frags;
    r := Ok(sql);
  }

  /** `buildSqlParts` succeeds exactly when every condition is one of the six. */
  lemma SqlPartsOk(alias: string, field: string, cs: seq<Constraint>)
    requires forall x :: x in cs ==> Emittable(x)
    ensures SqlParts(alias, field, cs).Ok? <==> forall i :: 0 <= i < |cs| ==> IsKnown(cs[i].condition)
  {
    var fs := Fragments(alias, field, cs);
    CollectErr(fs);
    if !SqlParts(alias, field, cs).Ok? {
      var i :| 0 <= i < |fs| && fs[i].Err?;
      assert !IsKnown(cs[i].condition);
    }
  }

  /**
   * On success there is one part per constraint, in order: the `i`-th is the
   * fragment of the `i`-th constraint at placeholder number `i + 1`.
   */
  lemma SqlPartsValues(alias: string, field: string, cs: seq<Constraint>)
    requires forall x :: x in cs ==> Emittable(x)
    requires SqlParts(alias, field, cs).Ok?
    ensures |SqlParts(alias, field, cs).value| == |cs|
    ensures forall i :: 0 <= i < |cs| ==>
      Fragment(alias, field, cs[i], Placeholder(PlaceholderBase(alias, field), i + 1)) == Ok(SqlParts(alias, field, cs).value[i])
  {
    CollectOk(Fragments(alias, field, cs));
  }

  /** On failure the error names the first constraint whose condition is not one of the six. */
  lemma SqlPartsErr(alias: string, field: string, cs: seq<Constraint>)
    requires forall x :: x in cs ==> Emittable(x)
    requires SqlParts(alias, field, cs).Err?
    ensures exists i ::
      && 0 <= i < |cs|
      && !IsKnown(cs[i].condition)
      && SqlParts(alias, field, cs).error == UndefinedCondition(cs[i].condition)
      && forall j :: 0 <= j < i ==> IsKnown(cs[j].condition)
  {
    var fs := Fragments(alias, field, cs);
    CollectErr(fs);
    var i :| 0 <= i < |fs| && fs[i] == Err(Collect(fs).error) && forall j :: 0 <= j < i ==> fs[j].Ok?;
    assert !IsKnown(cs[i].condition);
  }

  /** Within one filter the parts carry pairwise different placeholders. */
  lemma SqlPartsPlaceholdersDistinct(alias: string, field: string, cs: seq<Constraint>)
    requires forall x :: x in cs ==> Emittable(x)
    requires SqlParts(alias, field, cs).Ok?
    ensures var parts := SqlParts(alias, field, cs).value;
      forall i, j :: 0 <= i < j < |parts| ==> parts[i].placeholder != parts[j].placeholder
  {
    SqlPartsValues(alias, field, cs);
    var parts := SqlParts(alias, field, cs).value;
    var base := PlaceholderBase(alias, field);
    forall i | 0 <= i < |parts| ensures parts[i].placeholder == Placeholder(base, i + 1) {
      assert Fragment(alias, field, cs[i], Placeholder(base, i + 1)) == Ok(parts[i]);
    }
    forall i, j | 0 <= i < j < |parts| ensures parts[i].placeholder != parts[j].placeholder {
      PlaceholdersDistinct(base, i + 1, j + 1);
    }
  }
}
