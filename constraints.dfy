/**
 * The data shared by the three stages of the integer serializer: condition
 * codes, constraint values, constraints and the errors the stages raise.
 */
module Constraints {

  /**
   * A condition: one of the six the serializer knows (the class constants
   * `COND_*`), or any other code a caller may pass to the optimizer or the
   * emitter.
   */
  datatype Condition = Eq | Neq | Lte | Gte | Lt | Gt | Other(code: string)

  /** The textual code of a condition (`COND_EQUALS` is `eq`, ...). */
  function Code(c: Condition): string {
    match c
    case Eq => "eq"
    case Neq => "neq"
    case Lte => "lte"
    case Gte => "gte"
    case Lt => "lt"
    case Gt => "gt"
    case Other(code) => code
  }

  /**
   * The condition a code string names: how a condition string the class
   * receives is read into this datatype. A code outside the six becomes
   * `Other`, so `Other` never carries one of the six codes.
   */
  function FromCode(code: string): (c: Condition)
    ensures Code(c) == code
  {
    if code == "eq" then Eq
    else if code == "neq" then Neq
    else if code == "lte" then Lte
    else if code == "gte" then Gte
    else if code == "lt" then Lt
    else if code == "gt" then Gt
    else Other(code)
  }

  /**
   * Matching on the datatype is matching on the code strings, as the class's
   * `switch` statements do: the six codes name the six known conditions, and
   * no two conditions share a code.
   */
  lemma CodesDistinct(c: Condition, d: Condition)
    requires IsKnown(c) && IsKnown(d)
    ensures FromCode(Code(c)) == c
    ensures Code(c) == Code(d) ==> c == d
  {
  }

  /** Separator between tokens of an encoded filter. */
  const DELIMITER: char := ';'

  /** A nullable input. */
  datatype Option<T> = None | Some(value: T)

  /** A single integer, or the list of values an `eq`/`neq` group was merged into. */
  datatype Value = Scalar(n: int) | List(items: seq<int>)

  /** One `{condition, value}` pair. */
  datatype Constraint = Constraint(condition: Condition, value: Value)

  datatype Error =
    | UnknownOperand(operand: string)       // ParsingException: prefix not in the alias table
    | NotNumeric(text: string)              // ParsingException: value part is not numeric
    | UndefinedCondition(condition: Condition) // a condition no stage knows how to handle

  datatype Result<T> = Ok(value: T) | Err(error: Error)

  /** The six conditions the serializer knows. */
  predicate IsKnown(c: Condition) {
    !c.Other?
  }

  /** The shape the parser produces: every value a single integer. */
  predicate AllScalar(rs: seq<Constraint>) {
    forall x :: x in rs ==> x.value.Scalar?
  }

  /** The values a constraint speaks about. */
  function Items(v: Value): seq<int> {
    match v
    case Scalar(n) => [n]
    case List(items) => items
  }

  /**
   * What a constraint says about a field value `z`: the comparison is made
   * against every listed value; `eq` with a list means "one of", `neq` with a
   * list "none of". An unknown condition admits nothing.
   */
  predicate Holds(x: Constraint, z: int) {
    var vs := Items(x.value);
    match x.condition
    case Gt => forall v :: v in vs ==> z > v
    case Gte => forall v :: v in vs ==> z >= v
    case Lt => forall v :: v in vs ==> z < v
    case Lte => forall v :: v in vs ==> z <= v
    case Eq => z in vs
    case Neq => z !in vs
    case Other(_) => false
  }

  /** For a single value, `Holds` is the plain comparison. */
  lemma HoldsScalar(x: Constraint, z: int)
    requires x.value.Scalar?
    ensures var n := x.value.n;
      Holds(x, z) <==>
        match x.condition
        case Gt => z > n
        case Gte => z >= n
        case Lt => z < n
        case Lte => z <= n
        case Eq => z == n
        case Neq => z != n
        case Other(_) => false
  {
    assert x.value.n in Items(x.value);
  }

  /** The values of a list of outcomes in order, or the first error: no partial list. */
  function Collect<T>(ps: seq<Result<T>>): (r: Result<seq<T>>)
    ensures r.Ok? ==> |r.value| == |ps|
  {
    if ps == [] then Ok([])
    else
      match Collect(ps[..|ps| - 1])
      case Err(e) => Err(e)
      case Ok(prefix) =>
        match ps[|ps| - 1]
        case Err(e) => Err(e)
        case Ok(v) => Ok(prefix + [v])
  }

  /** On success the i-th value is the i-th outcome. */
  lemma {:induction false} CollectOk<T>(ps: seq<Result<T>>)
    requires Collect(ps).Ok?
    ensures forall i :: 0 <= i < |ps| ==> ps[i] == Ok(Collect(ps).value[i])
  {
    if ps != [] {
      CollectOk(ps[..|ps| - 1]);
    }
  }

  /**
   * Collecting fails exactly when some outcome is an error, and then with the
   * first error.
   */
  lemma {:induction false} CollectErr<T>(ps: seq<Result<T>>)
    ensures Collect(ps).Err? <==> exists i :: 0 <= i < |ps| && ps[i].Err?
    ensures Collect(ps).Err? ==>
      exists i :: 0 <= i < |ps| && ps[i] == Err(Collect(ps).error) &&
                  forall j :: 0 <= j < i ==> ps[j].Ok?
  {
    if ps != [] {
      var n := |ps| - 1;
      var init := ps[..n];
      CollectErr(init);
      assert forall i :: 0 <= i < n ==> ps[i] == init[i];
    }
  }

  /** One more successful outcome appends its value. */
  lemma CollectStep<T>(ps: seq<Result<T>>, i: nat, acc: seq<T>)
    requires i < |ps| && Collect(ps[..i]) == Ok(acc) && ps[i].Ok?
    ensures Collect(ps[..i + 1]) == Ok(acc + [ps[i].value])
  {
    assert ps[..i + 1][..i] == ps[..i];
  }

  /** A failed outcome fails the whole collection, whatever follows it. */
  lemma {:induction false} CollectStops<T>(ps: seq<Result<T>>, i: nat)
    requires i < |ps| && Collect(ps[..i]).Ok? && ps[i].Err?
    ensures Collect(ps) == Err(ps[i].error)
  {
    if |ps| == i + 1 {
      assert ps[..|ps| - 1] == ps[..i];
    } else {
      var init := ps[..|ps| - 1];
      assert init[..i] == ps[..i];
      CollectStops(init, i);
    }
  }

  /** Outcomes that all succeed collect to their values. */
  lemma {:induction false} CollectAllOk<T>(ps: seq<Result<T>>, cs: seq<T>)
    requires |ps| == |cs|
    requires forall i :: 0 <= i < |ps| ==> ps[i] == Ok(cs[i])
    ensures Collect(ps) == Ok(cs)
  {
    if ps != [] {
      CollectAllOk(ps[..|ps| - 1], cs[..|cs| - 1]);
      assert cs == cs[..|cs| - 1] + [cs[|cs| - 1]];
    }
  }
}
