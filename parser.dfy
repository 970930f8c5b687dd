/**
 * The parsing stage: `getConditionsAssoc`, `parseValue`, and the splitting of
 * an encoded filter into tokens that `unserialize` performs before parsing.
 */
module Parser {
  import opened Builtins
  import opened Constraints

  /** `getConditionsAssoc()`: the symbol of each condition code in the encoded form. */
  function ConditionsAssoc(): (m: map<Condition, string>)
    ensures forall c :: c in m <==> IsKnown(c)
  {
    map[Eq := "=", Lte := "<=", Gte := ">=", Neq := "!", Lt := "<", Gt := ">"]
  }

  /** `getConditionsAssoc(true)`: the table flipped, symbol to condition code. */
  function FlippedConditionsAssoc(): (m: map<string, Condition>)
    ensures forall a :: a in m ==> IsKnown(m[a]) && ConditionsAssoc()[m[a]] == a
  {
    var assoc := ConditionsAssoc();
    map c | c in assoc :: assoc[c] := c
  }

  /**
   * The flipped table is the inverse of the table: every condition is found
   * again from its symbol, and every symbol names the condition it is the
   * symbol of. The symbols are the six operators.
   */
  lemma FlipInverts()
    ensures forall c :: IsKnown(c) ==>
      ConditionsAssoc()[c] in FlippedConditionsAssoc() && FlippedConditionsAssoc()[ConditionsAssoc()[c]] == c
    ensures forall a :: a in FlippedConditionsAssoc() ==>
      IsKnown(FlippedConditionsAssoc()[a]) && ConditionsAssoc()[FlippedConditionsAssoc()[a]] == a
    ensures FlippedConditionsAssoc().Keys == {"=", "!", "<", ">", "<=", ">="}
  {
    var assoc, flipped := ConditionsAssoc(), FlippedConditionsAssoc();
    forall c | IsKnown(c) ensures assoc[c] in flipped && flipped[assoc[c]] == c {
      FlipFinds(c);
    }
    forall a | a in flipped ensures IsKnown(flipped[a]) && assoc[flipped[a]] == a {
      var c :| c in assoc && assoc[c] == a;
      FlipFinds(c);
    }
    FlipSymbols();
  }

  lemma FlipFinds(c: Condition)
    requires IsKnown(c)
    ensures ConditionsAssoc()[c] in FlippedConditionsAssoc()
    ensures FlippedConditionsAssoc()[ConditionsAssoc()[c]] == c
  {
    var assoc := ConditionsAssoc();
    assert assoc[c] in assoc.Values;
  }

  lemma FlipSymbols()
    ensures FlippedConditionsAssoc().Keys == {"=", "!", "<", ">", "<=", ">="}
  {
    var assoc, flipped := ConditionsAssoc(), FlippedConditionsAssoc();
    var symbols: set<string> := {"=", "!", "<", ">", "<=", ">="};
    SymbolsOfAssoc();
    forall a | a in flipped ensures a in symbols {
      var c :| c in assoc && assoc[c] == a;
    }
    forall c | IsKnown(c) ensures assoc[c] in flipped {
      FlipFinds(c);
    }
  }

  lemma SymbolsOfAssoc()
    ensures var assoc := ConditionsAssoc();
      && assoc[Eq] == "=" && assoc[Neq] == "!" && assoc[Lt] == "<"
      && assoc[Gt] == ">" && assoc[Lte] == "<=" && assoc[Gte] == ">="
  {
  }

  /**
   * The operator prefix of a token that does not start with a digit, and the
   * rest: two characters when the second is not a digit, otherwise one.
   */
  function SplitOperator(val: string): (parts: (string, string))
    requires |val| > 0
    ensures parts.0 + parts.1 == val
    ensures |parts.0| == (if |val| >= 2 && !IsDigit(val[1]) then 2 else 1)
  {
    if |val| >= 2 && !IsDigit(val[1]) then (val[..2], val[2..]) else (val[..1], val[1..])
  }

  /**
   * `parseValue`: one non-empty token to a constraint. A digit-leading token is
   * an `eq` whose value is the whole token; otherwise the operator prefix must
   * be a symbol of the flipped alias table and the rest must be numeric.
   */
  function ParseValue(val: string): (r: Result<Constraint>)
    requires val != []
    ensures r.Ok? ==> IsKnown(r.value.condition) && r.value.value.Scalar?
    ensures r.Err? ==> r.error.UnknownOperand? || r.error.NotNumeric?
    ensures IsDigit(val[0]) ==> (r.Ok? <==> IsNumeric(val))
    ensures IsDigit(val[0]) && r.Ok? ==> r.value == Constraint(Eq, Scalar(ToInt(val)))
    ensures IsDigit(val[0]) && !IsNumeric(val) ==> r == Err(NotNumeric(val))
    ensures !IsDigit(val[0]) ==>
      (r.Ok? <==> SplitOperator(val).0 in FlippedConditionsAssoc() && IsNumeric(SplitOperator(val).1))
    ensures !IsDigit(val[0]) && r.Ok? ==>
      r.value == Constraint(FlippedConditionsAssoc()[SplitOperator(val).0], Scalar(ToInt(SplitOperator(val).1)))
    ensures !IsDigit(val[0]) && SplitOperator(val).0 !in FlippedConditionsAssoc() ==>
      r == Err(UnknownOperand(SplitOperator(val).0))
    ensures !IsDigit(val[0]) && SplitOperator(val).0 in FlippedConditionsAssoc() && !IsNumeric(SplitOperator(val).1) ==>
      r == Err(NotNumeric(SplitOperator(val).1))
  {
    if IsDigit(val[0]) then
      if IsNumeric(val) then Ok(Constraint(Eq, Scalar(ToInt(val)))) else Err(NotNumeric(val))
    else
      var (operand, rest) := SplitOperator(val);
      var mapped := FlippedConditionsAssoc();
      if operand !in mapped then Err(UnknownOperand(operand))
      else if !IsNumeric(rest) then Err(NotNumeric(rest))
      else Ok(Constraint(mapped[operand], Scalar(ToInt(rest))))
  }

  /** The encoded form of a constraint: its symbol followed by the number. */
  function Encode(c: Condition, n: int): string
    requires IsKnown(c)
  {
    ConditionsAssoc()[c] + IntToString(n)
  }

  /**
   * Round trip: an encoded constraint parses back to itself, for every
   * non-negative number, and for every number after the two-character symbols.
   */
  lemma ParseEncoded(c: Condition, n: int)
    requires IsKnown(c)
    requires n >= 0 || c == Lte || c == Gte
    ensures ParseValue(Encode(c, n)) == Ok(Constraint(c, Scalar(n)))
  {
    EncodeSplits(c, n);
    FlipFinds(c);
    IntToStringRoundTrip(n);
  }

  /** An encoded constraint splits into its symbol and its number. */
  lemma EncodeSplits(c: Condition, n: int)
    requires IsKnown(c)
    requires n >= 0 || c == Lte || c == Gte
    ensures !IsDigit(Encode(c, n)[0])
    ensures SplitOperator(Encode(c, n)) == (ConditionsAssoc()[c], IntToString(n))
  {
    var sym := ConditionsAssoc()[c];
    var tok := Encode(c, n);
    SymbolsOfAssoc();
    if n >= 0 {
      assert IsDigit(IntToString(n)[0]);
    }
    if |sym| == 1 {
      assert tok[1] == IntToString(n)[0];
    }
    assert tok == sym + IntToString(n);
  }

  /** A bare number parses as `eq`. */
  lemma ParseBareNumber(n: nat)
    ensures ParseValue(NatToString(n)) == Ok(Constraint(Eq, Scalar(n)))
  {
    NatToStringValue(n);
    assert IsNumeric(NatToString(n));
  }

  /**
   * A negative number after a one-character symbol is rejected: the sign is
   * not a digit, so it is taken as the second character of the operator.
   */
  lemma NegativeNeedsTwoCharSymbol(c: Condition, n: int)
    requires c == Eq || c == Neq || c == Lt || c == Gt
    requires n < 0
    ensures ParseValue(Encode(c, n)) == Err(UnknownOperand(ConditionsAssoc()[c] + "-"))
  {
    var tok := Encode(c, n);
    var op := ConditionsAssoc()[c] + "-";
    assert !IsDigit(tok[0]) && SplitOperator(tok).0 == op by {
      SymbolsOfAssoc();
      assert tok[1] == '-';
    }
    assert op !in FlippedConditionsAssoc() by {
      SymbolsOfAssoc();
      FlipSymbols();
    }
  }

  /** Textual codes such as `gte10` are rejected: their first two letters are no symbol. */
  lemma TextualCodesRejected(c: Condition, n: nat)
    requires IsKnown(c)
    ensures ParseValue(Code(c) + NatToString(n)) == Err(UnknownOperand(Code(c)[..2]))
  {
    var tok := Code(c) + NatToString(n);
    var op := Code(c)[..2];
    assert !IsDigit(tok[0]) && SplitOperator(tok).0 == op by {
      assert tok[..2] == op;
      assert !IsDigit(tok[1]);
    }
    assert op !in FlippedConditionsAssoc() by {
      FlipSymbols();
    }
  }

  /** The tokens `unserialize` parses: split on `;`, repeats removed, empty pieces dropped. */
  function Tokens(data: string): (ts: seq<string>)
    ensures forall t :: t in ts <==> t in Explode(DELIMITER, data) && t != []
    ensures NoDuplicates(ts)
  {
    NonEmpty(Distinct(Explode(DELIMITER, data)))
  }

  /**
   * Tokens keep the order of the data: the tokens of a leading part of the
   * data, cut at a delimiter, come first and in the same order.
   */
  lemma TokensPrefix(s: string, t: string)
    ensures Tokens(s) <= Tokens(s + [DELIMITER] + t)
  {
    var a, b := Explode(DELIMITER, s), Explode(DELIMITER, t);
    ExplodeConcat(DELIMITER, s, t);
    assert (a + b)[..|a|] == a;
    DistinctPrefix(a + b, |a|);
    var d, e := Distinct(a), Distinct(a + b);
    assert e[..|d|] == d;
    NonEmptyPrefix(e, |d|);
  }

  /** The outcome of `parseValue` on each token. */
  function Parsed(ts: seq<string>): (ps: seq<Result<Constraint>>)
    requires forall t :: t in ts ==> |t| > 0
    ensures |ps| == |ts|
    ensures forall i :: 0 <= i < |ts| ==> ps[i] == ParseValue(ts[i])
  {
    seq(|ts|, i requires 0 <= i < |ts| => assert ts[i] in ts; ParseValue(ts[i]))
  }

  /** The tokens parsed in order; the first failure aborts the whole parse. */
  function ParseAll(ts: seq<string>): Result<seq<Constraint>>
    requires forall t :: t in ts ==> |t| > 0
  {
    Collect(Parsed(ts))
  }

  /** On success the i-th constraint is the parse of the i-th token. */
  lemma ParseAllOk(ts: seq<string>)
    requires forall t :: t in ts ==> |t| > 0
    requires ParseAll(ts).Ok?
    ensures forall i :: 0 <= i < |ts| ==> ParseValue(ts[i]) == Ok(ParseAll(ts).value[i])
  {
    CollectOk(Parsed(ts));
  }

  /**
   * The parse fails exactly when some token fails, and then with the error of
   * the first failing token.
   */
  lemma ParseAllErr(ts: seq<string>)
    requires forall t :: t in ts ==> |t| > 0
    ensures ParseAll(ts).Err? <==> exists i :: 0 <= i < |ts| && ParseValue(ts[i]).Err?
    ensures ParseAll(ts).Err? ==>
      exists i :: 0 <= i < |ts| && ParseValue(ts[i]) == Err(ParseAll(ts).error) &&
                  forall j :: 0 <= j < i ==> ParseValue(ts[j]).Ok?
  {
    CollectErr(Parsed(ts));
  }
}
