/**
 * Models of the PHP built-ins the integer serializer relies on: `is_numeric`
 * on integer literals, integer/string conversion, `explode`/`implode`,
 * `array_unique`, `array_filter` dropping empty strings, and `max`/`min`.
 */
module Builtins {

  /** A one-character string for which `is_numeric` holds: a decimal digit. */
  predicate IsDigit(ch: char) {
    '0' <= ch <= '9'
  }

  predicate AllDigits(s: string) {
    forall i :: 0 <= i < |s| ==> IsDigit(s[i])
  }

  /** `is_numeric` restricted to integer literals: an optional sign, then at least one digit. */
  predicate IsNumeric(s: string) {
    if |s| > 0 && (s[0] == '-' || s[0] == '+') then |s| > 1 && AllDigits(s[1..])
    else |s| > 0 && AllDigits(s)
  }

  /** The value of a decimal digit string (most significant digit first). */
  function DigitsValue(s: string): nat
    requires AllDigits(s)
  {
    if s == [] then 0
    else DigitsValue(s[..|s| - 1]) * 10 + (s[|s| - 1] as int - '0' as int)
  }

  /** The integer a numeric string denotes. */
  function ToInt(s: string): (i: int)
    requires IsNumeric(s)
    ensures s[0] == '-' ==> i <= 0
    ensures s[0] != '-' ==> i >= 0
  {
    if s[0] == '-' then -(DigitsValue(s[1..]) as int)
    else if s[0] == '+' then DigitsValue(s[1..])
    else DigitsValue(s)
  }

  /** Decimal rendering of a natural number, without leading zeros. */
  function NatToString(n: nat): (s: string)
    ensures |s| > 0 && AllDigits(s)
  {
    var last := [('0' as int + n % 10) as char];
    if n < 10 then last else NatToString(n / 10) + last
  }

  function IntToString(n: int): string {
    if n < 0 then "-" + NatToString(-n) else NatToString(n)
  }

  lemma {:induction false} NatToStringValue(n: nat)
    ensures DigitsValue(NatToString(n)) == n
  {
    if n >= 10 {
      var s := NatToString(n);
      assert s[..|s| - 1] == NatToString(n / 10);
      NatToStringValue(n / 10);
    }
  }

  /** Rendering an integer and reading it back gives the integer. */
  lemma IntToStringRoundTrip(n: int)
    ensures IsNumeric(IntToString(n))
    ensures ToInt(IntToString(n)) == n
  {
    if n < 0 {
      assert IntToString(n)[1..] == NatToString(-n);
      NatToStringValue(-n);
    } else {
      NatToStringValue(n);
    }
  }

  lemma NatToStringInjective(a: nat, b: nat)
    requires NatToString(a) == NatToString(b)
    ensures a == b
  {
    NatToStringValue(a);
    NatToStringValue(b);
  }

  /** `explode(delim, s)`: the pieces of `s` between occurrences of `delim`. */
  function Explode(delim: char, s: string): (parts: seq<string>)
    ensures |parts| > 0
    ensures forall p :: p in parts ==> delim !in p
  {
    if s == [] then [[]]
    else
      var prev := Explode(delim, s[..|s| - 1]);
      var ch := s[|s| - 1];
      if ch == delim then prev + [[]]
      else prev[..|prev| - 1] + [prev[|prev| - 1] + [ch]]
  }

  /** `implode(delim, parts)`: the pieces joined with `delim` between them. */
  function Implode(delim: char, parts: seq<string>): string
    requires |parts| > 0
  {
    if |parts| == 1 then parts[0]
    else Implode(delim, parts[..|parts| - 1]) + [delim] + parts[|parts| - 1]
  }

  /** Joining the pieces of `explode` gives the original string back. */
  lemma {:induction false} ImplodeExplode(delim: char, s: string)
    ensures Implode(delim, Explode(delim, s)) == s
  {
    if s != [] {
      var s' := s[..|s| - 1];
      var prev := Explode(delim, s');
      ImplodeExplode(delim, s');
      var parts := Explode(delim, s);
      var ch := s[|s| - 1];
      assert s == s' + [ch];
      if ch == delim {
        assert parts[..|parts| - 1] == prev;
        assert Implode(delim, parts) == s' + [delim] + [];
      } else {
        ImplodeExtendLast(delim, prev, ch);
      }
    }
  }

  /** Extending the last piece extends the join by the same characters. */
  lemma ImplodeExtendLast(delim: char, parts: seq<string>, ch: char)
    requires |parts| > 0
    ensures Implode(delim, parts[..|parts| - 1] + [parts[|parts| - 1] + [ch]]) == Implode(delim, parts) + [ch]
  {
    var n := |parts|;
    var parts' := parts[..n - 1] + [parts[n - 1] + [ch]];
    if n > 1 {
      assert parts'[..n - 1] == parts[..n - 1];
    }
  }

  lemma {:induction false} ExplodeNoDelim(delim: char, p: string)
    requires delim !in p
    ensures Explode(delim, p) == [p]
  {
    if p != [] {
      ExplodeNoDelim(delim, p[..|p| - 1]);
      assert p == p[..|p| - 1] + [p[|p| - 1]];
    }
  }

  /** Appending a delimiter and a delimiter-free piece appends exactly that piece. */
  lemma {:induction false} ExplodeAppend(delim: char, s: string, t: string)
    requires delim !in t
    ensures Explode(delim, s + [delim] + t) == Explode(delim, s) + [t]
  {
    if t == [] {
      assert (s + [delim] + t)[..|s|] == s;
    } else {
      var t' := t[..|t| - 1];
      ExplodeAppend(delim, s, t');
      assert (s + [delim] + t)[..|s + [delim] + t| - 1] == s + [delim] + t';
      assert t == t' + [t[|t| - 1]];
    }
  }

  /** Splitting at a delimiter splits the two sides independently. */
  lemma {:induction false} ExplodeConcat(delim: char, s: string, t: string)
    ensures Explode(delim, s + [delim] + t) == Explode(delim, s) + Explode(delim, t)
  {
    if t == [] {
      ExplodeAppend(delim, s, t);
    } else {
      var t', ch := t[..|t| - 1], t[|t| - 1];
      var w := s + [delim] + t';
      assert t' + [ch] == t;
      assert w + [ch] == s + [delim] + t;
      ExplodeConcat(delim, s, t');
      ExplodeSnoc(delim, w, ch);
      ExplodeSnoc(delim, t', ch);
      var a, b := Explode(delim, s), Explode(delim, t');
      if ch == delim {
        assert (a + b) + [[]] == a + (b + [[]]);
      } else {
        ExtendLastConcat(a, b, ch);
      }
    }
  }

  /** One more character either starts a new piece or extends the last one. */
  lemma ExplodeSnoc(delim: char, w: string, ch: char)
    ensures var prev := Explode(delim, w);
      Explode(delim, w + [ch]) ==
        if ch == delim then prev + [[]] else prev[..|prev| - 1] + [prev[|prev| - 1] + [ch]]
  {
    assert (w + [ch])[..|w|] == w;
  }

  /** Extending the last piece of `a + b` extends the last piece of `b`. */
  lemma ExtendLastConcat(a: seq<string>, b: seq<string>, ch: char)
    requires |b| > 0
    ensures var ab := a + b;
      ab[..|ab| - 1] + [ab[|ab| - 1] + [ch]] == a + (b[..|b| - 1] + [b[|b| - 1] + [ch]])
  {
    var ab := a + b;
    assert ab[..|ab| - 1] == a + b[..|b| - 1];
  }

  /** Splitting the join of delimiter-free pieces gives the pieces back. */
  lemma {:induction false} ExplodeImplode(delim: char, parts: seq<string>)
    requires |parts| > 0
    requires forall p :: p in parts ==> delim !in p
    ensures Explode(delim, Implode(delim, parts)) == parts
  {
    if |parts| == 1 {
      ExplodeNoDelim(delim, parts[0]);
    } else {
      var init := parts[..|parts| - 1];
      ExplodeImplode(delim, init);
      ExplodeAppend(delim, Implode(delim, init), parts[|parts| - 1]);
      assert parts == init + [parts[|parts| - 1]];
    }
  }

  predicate NoDuplicates<T(==,!new)>(s: seq<T>) {
    forall i, j :: 0 <= i < j < |s| ==> s[i] != s[j]
  }

  /** `array_unique`: the elements of `s` without repeats, each at its first occurrence. */
  function Distinct<T(==,!new)>(s: seq<T>): (r: seq<T>)
    ensures forall x :: x in r <==> x in s
    ensures NoDuplicates(r)
  {
    if s == [] then []
    else
      var d := Distinct(s[..|s| - 1]);
      if s[|s| - 1] in d then d else d + [s[|s| - 1]]
  }

  /** A repeated element does not change the result of `array_unique`. */
  lemma DistinctRepeat<T(!new)>(s: seq<T>, x: T)
    requires x in s
    ensures Distinct(s + [x]) == Distinct(s)
  {
    assert (s + [x])[..|s|] == s;
  }

  /** An element already present anywhere before is dropped wherever it recurs. */
  lemma {:induction false} DistinctSkipSeen<T(!new)>(a: seq<T>, t: T, b: seq<T>)
    requires t in a
    ensures Distinct(a + [t] + b) == Distinct(a + b)
  {
    if b == [] {
      assert a + [t] + b == a + [t];
      assert a + b == a;
      DistinctRepeat(a, t);
    } else {
      var b', x := b[..|b| - 1], b[|b| - 1];
      assert (a + [t] + b') + [x] == a + [t] + b;
      assert (a + b') + [x] == a + b;
      DistinctSkipSeen(a, t, b');
      DistinctSnoc(a + [t] + b', x);
      DistinctSnoc(a + b', x);
    }
  }

  /** One more element is appended exactly when it was not seen before. */
  lemma DistinctSnoc<T(!new)>(w: seq<T>, x: T)
    ensures Distinct(w + [x]) == if x in Distinct(w) then Distinct(w) else Distinct(w) + [x]
  {
    assert (w + [x])[..|w|] == w;
  }

  /**
   * First-seen order: extending the input only appends to the result, so an
   * element seen first earlier in the input comes earlier in the result.
   */
  lemma {:induction false} DistinctPrefix<T(!new)>(s: seq<T>, k: nat)
    requires k <= |s|
    ensures Distinct(s[..k]) <= Distinct(s)
    decreases |s| - k
  {
    if k < |s| {
      var s' := s[..|s| - 1];
      assert s'[..k] == s[..k];
      DistinctPrefix(s', k);
      assert s[..|s|] == s;
    } else {
      assert s[..k] == s;
    }
  }

  /** `array_unique` leaves a list without repeats unchanged. */
  lemma {:induction false} DistinctUnchanged<T(!new)>(s: seq<T>)
    requires NoDuplicates(s)
    ensures Distinct(s) == s
  {
    if s != [] {
      var init := s[..|s| - 1];
      assert NoDuplicates(init);
      DistinctUnchanged(init);
      assert s[|s| - 1] !in init;
      assert s == init + [s[|s| - 1]];
    }
  }

  /** `array_filter` with the callback `$val !== ''`. */
  function NonEmpty(ss: seq<string>): (r: seq<string>)
    ensures forall x :: x in r <==> x in ss && x != []
    ensures NoDuplicates(ss) ==> NoDuplicates(r)
  {
    if ss == [] then []
    else
      var p := NonEmpty(ss[..|ss| - 1]);
      var last := ss[|ss| - 1];
      assert NoDuplicates(ss) ==> last !in ss[..|ss| - 1];
      if last == [] then p else p + [last]
  }

  /**
   * `array_filter` keeps the order of what it keeps: filtering a prefix gives
   * a prefix of the filtered list.
   */
  lemma {:induction false} NonEmptyPrefix(ss: seq<string>, k: nat)
    requires k <= |ss|
    ensures NonEmpty(ss[..k]) <= NonEmpty(ss)
    decreases |ss| - k
  {
    if k < |ss| {
      var ss' := ss[..|ss| - 1];
      assert ss'[..k] == ss[..k];
      NonEmptyPrefix(ss', k);
    } else {
      assert ss[..k] == ss;
    }
  }

  /** Dropping empty strings leaves a list without empty strings unchanged. */
  lemma {:induction false} NonEmptyUnchanged(ss: seq<string>)
    requires forall x :: x in ss ==> x != []
    ensures NonEmpty(ss) == ss
  {
    if ss != [] {
      var init := ss[..|ss| - 1];
      assert forall x :: x in init ==> x in ss;
      NonEmptyUnchanged(init);
      assert ss[|ss| - 1] in ss;
      assert ss == init + [ss[|ss| - 1]];
    }
  }

  /** `max` of a non-empty list. */
  function MaxOf(s: seq<int>): (m: int)
    requires |s| > 0
    ensures m in s
    ensures forall x :: x in s ==> x <= m
  {
    if |s| == 1 then s[0]
    else
      var rest := MaxOf(s[1..]);
      assert s == [s[0]] + s[1..];
      if s[0] >= rest then s[0] else rest
  }

  /** `min` of a non-empty list. */
  function MinOf(s: seq<int>): (m: int)
    requires |s| > 0
    ensures m in s
    ensures forall x :: x in s ==> m <= x
  {
    if |s| == 1 then s[0]
    else
      var rest := MinOf(s[1..]);
      assert s == [s[0]] + s[1..];
      if s[0] <= rest then s[0] else rest
  }

  /** Removing repeats does not change the maximum. */
  lemma MaxOfDistinct(s: seq<int>)
    requires |s| > 0
    ensures |Distinct(s)| > 0 && MaxOf(Distinct(s)) == MaxOf(s)
  {
    assert s[0] in Distinct(s);
    assert MaxOf(s) in Distinct(s);
  }

  /** Removing repeats does not change the minimum. */
  lemma MinOfDistinct(s: seq<int>)
    requires |s| > 0
    ensures |Distinct(s)| > 0 && MinOf(Distinct(s)) == MinOf(s)
  {
    assert s[0] in Distinct(s);
    assert MinOf(s) in Distinct(s);
  }
}
