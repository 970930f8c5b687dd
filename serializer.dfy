/**
 * `unserialize`: an encoded filter such as `>=10;<20;!15` is split into
 * tokens, each token parsed, and the constraints optimized; and how its
 * output feeds `buildSqlParts`.
 */
module Serializer {
  import opened Builtins
  import opened Constraints
  import opened Parser
  import opened Optimizer
  import opened SqlEmitter

  /** Every constraint a successful parse produces is a known condition with one value. */
  lemma ParsedShape(ts: seq<string>)
    requires forall t :: t in ts ==> |t| > 0
    requires ParseAll(ts).Ok?
    ensures forall x :: x in ParseAll(ts).value ==> IsKnown(x.condition) && x.value.Scalar?
  {
    ParseAllOk(ts);
    forall x | x in ParseAll(ts).value ensures IsKnown(x.condition) && x.value.Scalar? {
      var i :| 0 <= i < |ParseAll(ts).value| && ParseAll(ts).value[i] == x;
      assert ts[i] in ts;
    }
  }

  /** What `unserialize` returns: no input gives no constraints. */
  function Unserialized(data: Option<string>, optimize: bool): Result<seq<Constraint>> {
    match data
    case None => Ok([])
    case Some(s) =>
      var ts := Tokens(s);
      match ParseAll(ts)
      case Err(e) => Err(e)
      case Ok(rs) => if optimize then Optimized(rs) else Ok(rs)
  }

  /**
   * `unserialize`: the tokens are parsed one after the other, the first
   * malformed token aborting the call, and the list is then optimized.
   */
  method Unserialize(data: Option<string>, optimize: bool) returns (r: Result<seq<Constraint>>)
    ensures data.None? ==> r == Ok([])
    ensures r == Unserialized(data, optimize)
  {
    if data.None? {
      return Ok([]);
    }
    var values := Tokens(data.value);
    ghost var ps := Parsed(values);
    var results: seq<Constraint> := [];
    for i := 0 to |values|
      invariant Collect(ps[..i]) == Ok(results)
    {
      assert values[i] in values;
      var p := ParseValue(values[i]);
      if p.Err? {
        CollectStops(ps, i);
        return Err(p.error);
      }
      CollectStep(ps, i, results);
      results := results + [p.value];
    }
    assert ps[..|values|] == ps;
    ParsedShape(values);
    r := OptimizeResults(results, optimize);
  }

  /**
   * The call fails exactly when some token fails to parse, and then only
   * with a parsing error: optimizing what the parser produced never fails.
   */
  lemma UnserializeFails(s: string, optimize: bool)
    ensures Unserialized(Some(s), optimize).Err? <==>
      exists t :: t in Explode(DELIMITER, s) && t != [] && ParseValue(t).Err?
    ensures Unserialized(Some(s), optimize).Err? ==>
      Unserialized(Some(s), optimize).error.UnknownOperand? || Unserialized(Some(s), optimize).error.NotNumeric?
  {
    var ts := Tokens(s);
    ParseAllErr(ts);
    if ParseAll(ts).Ok? {
      ParsedShape(ts);
      OptimizedFails(ParseAll(ts).value);
    } else {
      var i :| 0 <= i < |ts| && ParseValue(ts[i]) == Err(ParseAll(ts).error);
      assert ts[i] in ts;
    }
    forall t | t in Explode(DELIMITER, s) && t != [] && ParseValue(t).Err?
      ensures exists i :: 0 <= i < |ts| && ParseValue(ts[i]).Err?
    {
      var i :| 0 <= i < |ts| && ts[i] == t;
    }
  }

  /**
   * Without optimizing, the result holds one constraint per distinct
   * non-empty token, in the order the tokens first occur.
   */
  lemma UnoptimizedKeepsTokens(s: string)
    requires Unserialized(Some(s), false).Ok?
    ensures var rs := Unserialized(Some(s), false).value;
      && |rs| == |Tokens(s)|
      && forall i :: 0 <= i < |rs| ==> Tokens(s)[i] in Tokens(s) && ParseValue(Tokens(s)[i]) == Ok(rs[i])
  {
    ParseAllOk(Tokens(s));
  }

  /** Repeating a piece that already occurs changes nothing. */
  lemma RepeatedTokenIgnored(s: string, t: string, optimize: bool)
    requires t in Explode(DELIMITER, s)
    ensures Unserialized(Some(s + [DELIMITER] + t), optimize) == Unserialized(Some(s), optimize)
  {
    RepeatedTokenTokens(s, t);
  }

  /**
   * Repeating a piece anywhere after its first occurrence changes nothing:
   * `s;t;u` reads as `s;u` when `t` is already a piece of `s`.
   */
  lemma RepeatedInnerTokenIgnored(s: string, t: string, u: string, optimize: bool)
    requires t in Explode(DELIMITER, s)
    ensures Unserialized(Some(s + [DELIMITER] + t + [DELIMITER] + u), optimize)
         == Unserialized(Some(s + [DELIMITER] + u), optimize)
  {
    RepeatedInnerTokenTokens(s, t, u);
  }

  lemma RepeatedInnerTokenTokens(s: string, t: string, u: string)
    requires t in Explode(DELIMITER, s)
    ensures Tokens(s + [DELIMITER] + t + [DELIMITER] + u) == Tokens(s + [DELIMITER] + u)
  {
    var a, b := Explode(DELIMITER, s), Explode(DELIMITER, u);
    ExplodeAppend(DELIMITER, s, t);
    ExplodeConcat(DELIMITER, s + [DELIMITER] + t, u);
    ExplodeConcat(DELIMITER, s, u);
    assert a + [t] + b == (a + [t]) + b;
    DistinctSkipSeen(a, t, b);
  }

  lemma RepeatedTokenTokens(s: string, t: string)
    requires t in Explode(DELIMITER, s)
    ensures Tokens(s + [DELIMITER] + t) == Tokens(s)
  {
    ExplodeAppend(DELIMITER, s, t);
    DistinctRepeat(Explode(DELIMITER, s), t);
  }

  /** A trailing delimiter (an empty piece) changes nothing. */
  lemma TrailingDelimiterIgnored(s: string, optimize: bool)
    ensures Unserialized(Some(s + [DELIMITER]), optimize) == Unserialized(Some(s), optimize)
  {
    TrailingDelimiterTokens(s);
  }

  lemma TrailingDelimiterTokens(s: string)
    ensures Tokens(s + [DELIMITER]) == Tokens(s)
  {
    var parts := Explode(DELIMITER, s);
    ExplodeAppend(DELIMITER, s, []);
    assert s + [DELIMITER] + [] == s + [DELIMITER];
    var d := Distinct(parts + [[]]);
    assert (parts + [[]])[..|parts|] == parts;
    if d != Distinct(parts) {
      assert d == Distinct(parts) + [[]];
      assert d[..|d| - 1] == Distinct(parts);
    }
  }

  /**
   * What `unserialize` returns is what `buildSqlParts` accepts, so the
   * emitter never fails on it: known conditions and non-empty lists.
   */
  lemma UnserializedEmittable(data: Option<string>, optimize: bool)
    requires Unserialized(data, optimize).Ok?
    ensures forall x :: x in Unserialized(data, optimize).value ==> IsKnown(x.condition) && Emittable(x)
  {
    if data.Some? {
      var ts := Tokens(data.value);
      ParsedShape(ts);
      if optimize {
        OptimizedEmittable(ParseAll(ts).value);
      }
    }
  }

  /** The constraints that survive the trip through the encoded form. */
  predicate Encodable(x: Constraint) {
    IsKnown(x.condition) && x.value.Scalar? && (x.value.n >= 0 || x.condition == Lte || x.condition == Gte)
  }

  /** The encoded tokens of a list of constraints. */
  function EncodeAll(cs: seq<Constraint>): (ts: seq<string>)
    requires forall i :: 0 <= i < |cs| ==> Encodable(cs[i])
    ensures |ts| == |cs|
    ensures forall i :: 0 <= i < |cs| ==> Encodable(cs[i]) && ts[i] == Encode(cs[i].condition, cs[i].value.n)
  {
    seq(|cs|, i requires 0 <= i < |cs| => assert Encodable(cs[i]); Encode(cs[i].condition, cs[i].value.n))
  }

  /** The encoding of a list of constraints: the tokens joined by the delimiter. */
  function Serialized(cs: seq<Constraint>): string
    requires |cs| > 0
    requires forall i :: 0 <= i < |cs| ==> Encodable(cs[i])
  {
    Implode(DELIMITER, EncodeAll(cs))
  }

  lemma NoDelimiterInEncoding(c: Condition, n: int)
    requires IsKnown(c)
    ensures DELIMITER !in Encode(c, n)
  {
    var digits := NatToString(if n < 0 then -n else n);
    assert IntToString(n) == digits || IntToString(n) == "-" + digits;
    assert forall k :: 0 <= k < |digits| ==> digits[k] != DELIMITER;
  }

  /**
   * Round trip: encoding distinct constraints and unserializing the result
   * without optimizing gives the same constraints back, in the same order.
   */
  lemma UnserializeSerialized(cs: seq<Constraint>)
    requires |cs| > 0 && NoDuplicates(cs)
    requires forall i :: 0 <= i < |cs| ==> Encodable(cs[i])
    ensures Unserialized(Some(Serialized(cs)), false) == Ok(cs)
  {
    var ts := EncodeAll(cs);
    EncodedParse(cs);
    SerializedTokens(cs);
    CollectAllOk(Parsed(ts), cs);
  }

  /** Each encoded token is a non-empty, delimiter-free token that parses back. */
  lemma EncodedParse(cs: seq<Constraint>)
    requires forall i :: 0 <= i < |cs| ==> Encodable(cs[i])
    ensures forall i :: 0 <= i < |cs| ==>
      && EncodeAll(cs)[i] != [] && DELIMITER !in EncodeAll(cs)[i]
      && ParseValue(EncodeAll(cs)[i]) == Ok(cs[i])
  {
    var ts := EncodeAll(cs);
    forall i | 0 <= i < |cs| ensures ts[i] != [] && DELIMITER !in ts[i] && ParseValue(ts[i]) == Ok(cs[i]) {
      assert cs[i] in cs;
      ParseEncoded(cs[i].condition, cs[i].value.n);
      NoDelimiterInEncoding(cs[i].condition, cs[i].value.n);
    }
  }

  /** Splitting the encoding of distinct constraints gives back exactly their tokens. */
  lemma SerializedTokens(cs: seq<Constraint>)
    requires |cs| > 0 && NoDuplicates(cs)
    requires forall i :: 0 <= i < |cs| ==> Encodable(cs[i])
    ensures Tokens(Serialized(cs)) == EncodeAll(cs)
  {
    var ts := EncodeAll(cs);
    EncodedParse(cs);
    ExplodeImplode(DELIMITER, ts);
    assert NoDuplicates(ts) by {
      forall i, j | 0 <= i < j < |ts| ensures ts[i] != ts[j] {
        assert cs[i] != cs[j];
      }
    }
    DistinctUnchanged(ts);
    NonEmptyUnchanged(ts);
  }

  /**
   * The finding in the emitter, end to end: without optimizing, a bare
   * number parses as a single `eq` value, which the code as written binds
   * as `null`.
   */
  lemma UnoptimizedEqualityBindsNull(n: nat, alias: string, field: string)
    ensures Unserialized(Some(NatToString(n)), false) == Ok([Constraint(Eq, Scalar(n))])
    ensures FragmentAsWritten(alias, field, Constraint(Eq, Scalar(n)), PlaceholderBase(alias, field)).value.parameter
            == BindNull
  {
    var s := NatToString(n);
    ParseBareNumber(n);
    NoDelimiterInEncoding(Eq, n);
    assert Encode(Eq, n) == "=" + s;
    assert DELIMITER !in s;
    ExplodeNoDelim(DELIMITER, s);
    assert Distinct([s]) == [s];
    NonEmptyUnchanged([s]);
    assert Tokens(s) == [s];
    CollectAllOk(Parsed([s]), [Constraint(Eq, Scalar(n))]);
  }
}
