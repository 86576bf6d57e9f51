/**
  * The percentage text field (src/components/Form/Input/PercentageInput.tsx):
  * the language of strings its validator accepts, and the field's stored
  * value as typed edits and prop changes update it.
  */
module PercentageInput {
  import opened Numerals

  // ---------------------------------------------------------------------
  // The validator, one regular-expression construct at a time
  // ---------------------------------------------------------------------

  /**
    * The group `(100(?!\.)|\d{1,2})` matching the first `k` characters of `s`:
    * either "100" when the next character is not a '.', or one or two digits.
    */
  predicate WholeGroupMatches(s: string, k: nat) {
    (k == 3 && 3 <= |s| && s[..3] == "100" && !(3 < |s| && s[3] == '.'))
    || (1 <= k <= 2 && k <= |s| && AllDigits(s[..k]))
  }

  /**
    * `(\.\d{m,2})?$` matching all of `rest`: nothing, or a '.' followed by
    * `minDecimals` to two digits.
    */
  predicate FractionMatches(rest: string, minDecimals: nat) {
    rest == [] || (rest[0] == '.' && minDecimals <= |rest| - 1 <= 2 && AllDigits(rest[1..]))
  }

  /** One anchored alternative, with the group taking the first `k` characters. */
  predicate MatchesWith(s: string, minDecimals: nat, k: nat) {
    k <= |s| && WholeGroupMatches(s, k) && FractionMatches(s[k..], minDecimals)
  }

  /**
    * One anchored alternative `^(100(?!\.)|\d{1,2})(\.\d{m,2})?$`: the group
    * matches one, two or three characters, so backtracking tries those three.
    */
  predicate AlternativeMatches(s: string, minDecimals: nat) {
    MatchesWith(s, minDecimals, 1) || MatchesWith(s, minDecimals, 2) || MatchesWith(s, minDecimals, 3)
  }

  /** `validatePercentage`: the first alternative needs one or two decimals, the second zero to two. */
  predicate ValidatePercentage(s: string) {
    AlternativeMatches(s, 1) || AlternativeMatches(s, 0)
  }

  // ---------------------------------------------------------------------
  // Reference definition: the shape of a percentage
  // ---------------------------------------------------------------------

  /** A percentage as written: whole part, whether a point follows, decimals after it. */
  datatype Percentage = Percentage(whole: string, point: bool, decimals: string)

  /**
    * The whole part is "100" or one or two digits; "100" takes no point; at
    * most two decimals, and none without a point.
    */
  predicate WellFormed(p: Percentage) {
    && (p.whole == "100" || (1 <= |p.whole| <= 2 && AllDigits(p.whole)))
    && (p.whole == "100" ==> !p.point)
    && |p.decimals| <= 2 && AllDigits(p.decimals)
    && (!p.point ==> p.decimals == [])
  }

  function Text(p: Percentage): string {
    p.whole + (if p.point then "." + p.decimals else "")
  }

  /** The number a well-formed percentage denotes, in hundredths ("5.5" is 550). */
  function Hundredths(p: Percentage): (h: nat)
    requires WellFormed(p)
    ensures h <= 10000
    ensures h == 10000 <==> p.whole == "100"
  {
    assert p.whole == "100" ==> ParseNat(p.whole) == 100 by {
      if p.whole == "100" {
        assert "100"[..2] == "10" && "10"[..1] == "1" && "1"[..0] == "";
        assert ParseNat("1") == 1;
        assert ParseNat("10") == 10;
      }
    }
    var cents :=
      if |p.decimals| == 0 then 0
      else if |p.decimals| == 1 then 10 * DigitValue(p.decimals[0])
      else ParseNat(p.decimals);
    ParseNat(p.whole) * 100 + cents
  }

  // ---------------------------------------------------------------------
  // Facts about the accepted language
  // ---------------------------------------------------------------------

  /** Requiring more decimals only narrows an alternative. */
  lemma AlternativeMonotone(s: string, more: nat, fewer: nat)
    requires fewer <= more
    ensures AlternativeMatches(s, more) ==> AlternativeMatches(s, fewer)
  {
  }

  /** The first alternative is redundant: the validator is the second alternative alone. */
  lemma ValidateIsSecondAlternative(s: string)
    ensures ValidatePercentage(s) <==> AlternativeMatches(s, 0)
    ensures AlternativeMatches(s, 1) ==> AlternativeMatches(s, 0)
  {
  }

  /** The percentage an accepted string spells, read off the split the match used. */
  lemma ShapeOfMatch(s: string, k: nat) returns (p: Percentage)
    requires MatchesWith(s, 0, k)
    ensures WellFormed(p) && Text(p) == s
  {
    var rest := s[k..];
    assert s == s[..k] + rest;
    if k == 3 {
      // the lookahead rules out a '.' after "100", so nothing may follow
      assert rest == [];
      p := Percentage("100", false, "");
    } else if rest == [] {
      p := Percentage(s[..k], false, "");
    } else {
      p := Percentage(s[..k], true, rest[1..]);
      assert rest == "." + rest[1..];
    }
  }

  /** A well-formed percentage's text is matched with its whole part as the group. */
  lemma MatchOfShape(p: Percentage)
    requires WellFormed(p)
    ensures MatchesWith(Text(p), 0, |p.whole|)
  {
  }

  /**
    * The accepted strings are exactly the texts of well-formed percentages:
    * "100" or one or two digits, then optionally '.' and up to two digits.
    */
  lemma AcceptedIffWellFormed(s: string)
    ensures ValidatePercentage(s) <==> exists p :: WellFormed(p) && Text(p) == s
  {
    ValidateIsSecondAlternative(s);
    if ValidatePercentage(s) {
      var k :| 1 <= k <= 3 && MatchesWith(s, 0, k);
      var p := ShapeOfMatch(s, k);
    }
    if p :| WellFormed(p) && Text(p) == s {
      MatchOfShape(p);
      assert 1 <= |p.whole| <= 3;
    }
  }

  /** A string spells at most one well-formed percentage. */
  lemma TextInjective(p: Percentage, q: Percentage)
    requires WellFormed(p) && WellFormed(q) && Text(p) == Text(q)
    ensures p == q
  {
    WholePartsEqual(p, q);
    var s, k := Text(p), |p.whole|;
    assert p.whole == s[..k] == q.whole;
    assert p.point <==> k < |s|;
    assert q.point <==> k < |s|;
    if p.point {
      assert s[k..] == "." + p.decimals == "." + q.decimals;
      assert p.decimals == s[k..][1..] == q.decimals;
    }
  }

  lemma WholePartsEqual(p: Percentage, q: Percentage)
    requires WellFormed(p) && WellFormed(q) && Text(p) == Text(q)
    ensures |p.whole| == |q.whole|
  {
    if |p.whole| < |q.whole| {
      ShorterWholeDiffers(p, q);
    } else if |q.whole| < |p.whole| {
      ShorterWholeDiffers(q, p);
    }
  }

  lemma ShorterWholeDiffers(p: Percentage, q: Percentage)
    requires WellFormed(p) && WellFormed(q) && |p.whole| < |q.whole|
    ensures Text(p) != Text(q)
  {
    var i := |p.whole|;
    assert Text(q)[i] == q.whole[i];
    assert IsDigit(q.whole[i]);
    if p.point {
      assert Text(p)[i] == '.';
    }
  }

  /** Every accepted string denotes a single number from 0 to 100 inclusive. */
  lemma AcceptedDenotesPercent(s: string)
    requires ValidatePercentage(s)
    ensures exists p :: WellFormed(p) && Text(p) == s && Hundredths(p) <= 10000
    ensures forall p, q | WellFormed(p) && WellFormed(q) && Text(p) == s && Text(q) == s :: p == q
  {
    AcceptedIffWellFormed(s);
    forall p, q | WellFormed(p) && WellFormed(q) && Text(p) == s && Text(q) == s
      ensures p == q
    {
      TextInjective(p, q);
    }
  }

  /** The boundary cases around "100", and trailing-point forms. */
  lemma HundredTakesNoPoint()
    ensures ValidatePercentage("100")
    ensures !ValidatePercentage("100.") && !ValidatePercentage("100.5") && !ValidatePercentage("100.00")
    ensures !ValidatePercentage("101") && !ValidatePercentage("1000")
    ensures ValidatePercentage("5.") && ValidatePercentage("99.") && ValidatePercentage("99.99")
    ensures !ValidatePercentage("") && !ValidatePercentage(".5") && !ValidatePercentage("5.123")
  {
    assert MatchesWith("100", 0, 3);
    assert MatchesWith("5.", 0, 1);
    assert MatchesWith("99.", 0, 2);
    assert MatchesWith("99.99", 1, 2);
  }

  // ---------------------------------------------------------------------
  // The field's state
  // ---------------------------------------------------------------------

  /** A value the field may hold: the `value` prop passes strings or (integer) numbers. */
  datatype InputValue = Undefined | Str(s: string) | Num(n: int)

  /** JavaScript truthiness: undefined, '' and 0 are falsy. */
  predicate Truthy(v: InputValue) {
    match v
    case Undefined => false
    case Str(s) => s != ""
    case Num(n) => n != 0
  }

  /**
    * One mounted field. `localValue` is the displayed value; `changes` records
    * the values `onChange` was called with, in order.
    */
  class PercentageField {
    var value: InputValue
    var localValue: InputValue
    const hasOnChange: bool
    var changes: seq<string>

    /** `onChange` only ever hears non-empty, accepted strings. */
    ghost predicate Valid()
      reads this
    {
      forall i | 0 <= i < |changes| :: changes[i] != "" && ValidatePercentage(changes[i])
    }

    /**
      * Mount, `useState(value || 0)`: the stored value is the prop, or 0 when
      * the prop is falsy. The mount run of the effect copies the same truthy
      * prop, so it changes nothing.
      */
    constructor (value: InputValue, hasOnChange: bool)
      ensures Valid()
      ensures this.value == value && this.hasOnChange == hasOnChange
      ensures Truthy(value) ==> localValue == value
      ensures !Truthy(value) ==> localValue == Num(0)
      ensures changes == []
    {
      this.value := value;
      this.hasOnChange := hasOnChange;
      localValue := if Truthy(value) then value else Num(0);
      changes := [];
    }

    /**
      * `handleChange`: an empty edit clears the value silently; an accepted
      * edit is stored and reported once; any other edit changes nothing.
      */
    method HandleChange(input: string)
      requires Valid()
      modifies this
      ensures Valid()
      ensures value == old(value)
      ensures input == "" ==> localValue == Str("") && changes == old(changes)
      ensures input != "" && ValidatePercentage(input) ==>
        localValue == Str(input) && changes == old(changes) + (if hasOnChange then [input] else [])
      ensures input != "" && !ValidatePercentage(input) ==>
        localValue == old(localValue) && changes == old(changes)
    {
      if input == "" {
        localValue := Str("");
        return;
      }
      if ValidatePercentage(input) {
        localValue := Str(input);
        if hasOnChange {
          changes := changes + [input];
        }
      }
    }

    /**
      * A new `value` prop. The effect runs only when the prop differs from the
      * last one, and copies it only when it is truthy.
      */
    method SetValue(newValue: InputValue)
      requires Valid()
      modifies this
      ensures Valid()
      ensures value == newValue && changes == old(changes)
      ensures localValue == if newValue != old(value) && Truthy(newValue) then newValue else old(localValue)
    {
      if newValue != value {
        value := newValue;
        if Truthy(newValue) {
          localValue := newValue;
        }
      }
    }
  }

  /** An accepted edit followed by an empty one leaves the field empty with one report. */
  method TypeThenClear()
  {
    var field := new PercentageField(Str("25"), true);
    HundredTakesNoPoint();
    field.HandleChange("99.");
    assert field.localValue == Str("99.") && field.changes == ["99."];
    field.HandleChange("100.5");
    assert field.localValue == Str("99.") && field.changes == ["99."];
    field.HandleChange("");
    assert field.localValue == Str("") && field.changes == ["99."];
    field.SetValue(Num(0));
    assert field.localValue == Str("");
  }
}
