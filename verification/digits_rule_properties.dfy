/** What the digits rule promises about its parameter, its messages and its outcome, stated
    over the text a rule author writes. */
module DigitsRuleProperties {
  import opened Results
  import opened JavaText
  import opened DigitsRule

  // ---------------------------------------------------------------------------
  // The parameter
  // ---------------------------------------------------------------------------

  /** A null or empty parameter is a configuration error for any present value, never a
      validation failure. */
  lemma MissingParameterIsConfigError(fieldName: string, v: string, parameter: Option<string>)
    requires parameter.None? || parameter.value == []
    ensures Validate(fieldName, Some(v), parameter) == ConfigError(MissingParameter)
  {
  }

  /** The decimal text of a count has no trimmable character at either end and no comma. */
  lemma CountTextIsPlain(n: int)
    ensures var t := IntToString(n);
      t != [] && !IsTrimmable(t[0]) && !IsTrimmable(t[|t| - 1]) && ',' !in t && ' ' !in t
  {
    var t := IntToString(n);
    if n < 0 {
      assert t[1..] == NatToString(-n);
    }
    forall k | 0 <= k < |t| ensures t[k] != ',' && !IsTrimmable(t[k]) {
      if n < 0 && k > 0 {
        assert t[k] == NatToString(-n)[k - 1];
      }
    }
  }

  /** A count written with trimmable padding around it. */
  function Padded(pre: string, n: int, post: string): string {
    pre + IntToString(n) + post
  }

  /** A padded count holds no comma, since every trimmable character comes before ','. */
  lemma PaddedHasNoComma(pre: string, n: int, post: string)
    requires AllTrimmable(pre) && AllTrimmable(post)
    ensures ',' !in Padded(pre, n, post)
  {
    CountTextIsPlain(n);
    var t := IntToString(n);
    var p := Padded(pre, n, post);
    forall k | 0 <= k < |p| ensures p[k] != ',' {
      if k < |pre| {
        assert p[k] == pre[k];
      } else if k < |pre| + |t| {
        assert p[k] == t[k - |pre|];
      } else {
        assert p[k] == post[k - |pre| - |t|];
      }
    }
  }

  /** A padded count trims and parses back to the count, and holds no comma. */
  lemma PaddedCountReads(pre: string, n: int, post: string)
    requires AllTrimmable(pre) && AllTrimmable(post)
    requires IsJavaInt(n)
    ensures ',' !in Padded(pre, n, post) && Padded(pre, n, post) != []
    ensures ParseInt(Trim(Padded(pre, n, post))) == Some(n)
  {
    CountTextIsPlain(n);
    PaddedHasNoComma(pre, n, post);
    TrimPadded(pre, IntToString(n), post);
    ParseIntOfToString(n);
  }

  /** An exact parameter whose trimmed text parseInt reads as n ("5", " 05 ", "+5", "-0")
      reads as min = max = n when n is at least 1, and is rejected as not positive otherwise. */
  lemma ExactParameterReads(p: string, n: int)
    requires p != [] && ',' !in p
    requires ParseInt(Trim(p)) == Some(n)
    ensures ParseParameter(Some(p)) == if n < 1 then Failure(NotPositive) else Success(Bounds(n, n))
  {
  }

  /** So "n" written as Integer.toString writes it, padding around it allowed, reads as
      min = max = n when n is at least 1 ("0" and "-3" are not positive). */
  lemma PaddedExactParameterReads(pre: string, n: int, post: string)
    requires AllTrimmable(pre) && AllTrimmable(post)
    requires IsJavaInt(n)
    ensures ParseParameter(Some(Padded(pre, n, post)))
         == if n < 1 then Failure(NotPositive) else Success(Bounds(n, n))
  {
    PaddedCountReads(pre, n, post);
    ExactParameterReads(Padded(pre, n, post), n);
  }

  /** An exact parameter whose trimmed text is not a Java int (blank, a letter, a decimal
      point, a value beyond 2147483647) is a configuration error. */
  lemma ExactParameterNotAnInteger(p: string)
    requires p != [] && ',' !in p
    requires ParseInt(Trim(p)) == None
    ensures ParseParameter(Some(p)) == Failure(NotAnInteger)
  {
  }

  /** Text with exactly one comma and something after it is read as a range of its two sides. */
  lemma RangeParameterSplits(a: string, b: string)
    requires ',' !in a && ',' !in b && b != []
    ensures ParseParameter(Some(a + [','] + b)) == ReadRange(a, b)
  {
    SplitTwo(a, b, ',');
    assert (a + [','] + b)[|a|] == ',';
  }

  /** A range parameter "a,b" whose trimmed sides parseInt reads as lo and hi ("3,5",
      " 03 , +5 ") is checked in the source's order: both sides positive, then min not above
      max; it then reads as min = lo and max = hi. */
  lemma RangeParameterReads(a: string, lo: int, b: string, hi: int)
    requires ',' !in a && ',' !in b && b != []
    requires ParseInt(Trim(a)) == Some(lo) && ParseInt(Trim(b)) == Some(hi)
    ensures ParseParameter(Some(a + [','] + b))
         == if lo < 1 || hi < 1 then Failure(NotPositive)
            else if lo > hi then Failure(MinAboveMax)
            else Success(Bounds(lo, hi))
  {
    RangeParameterSplits(a, b);
  }

  /** So a range of two counts written as Integer.toString writes them, each side padded as
      the author likes, reads as that range when both are positive and in order. */
  lemma PaddedRangeParameterReads(pre1: string, lo: int, post1: string, pre2: string, hi: int, post2: string)
    requires AllTrimmable(pre1) && AllTrimmable(post1) && AllTrimmable(pre2) && AllTrimmable(post2)
    requires IsJavaInt(lo) && IsJavaInt(hi)
    ensures ParseParameter(Some(Padded(pre1, lo, post1) + [','] + Padded(pre2, hi, post2)))
         == if lo < 1 || hi < 1 then Failure(NotPositive)
            else if lo > hi then Failure(MinAboveMax)
            else Success(Bounds(lo, hi))
  {
    PaddedCountReads(pre1, lo, post1);
    PaddedCountReads(pre2, hi, post2);
    RangeParameterReads(Padded(pre1, lo, post1), lo, Padded(pre2, hi, post2), hi);
  }

  /** A range side that does not trim to a Java int is a configuration error. */
  lemma RangeParameterNotAnInteger(a: string, b: string)
    requires ',' !in a && ',' !in b && b != []
    requires ParseInt(Trim(a)) == None || ParseInt(Trim(b)) == None
    ensures ParseParameter(Some(a + [','] + b)) == Failure(NotAnInteger)
  {
    RangeParameterSplits(a, b);
  }

  /** "3,", "3,," and "," do not split into two parts (split drops the empty pieces after
      the commas), so they are rejected as a malformed range. */
  lemma OneSidedRangeIsConfigError(a: string, k: nat)
    requires ',' !in a && k >= 1
    ensures ParseParameter(Some(a + Repeat(',', k))) == Failure(RangeArity)
  {
    SplitOneWithTrailing(a, ',', k);
    assert (a + Repeat(',', k))[|a|] == ',';
  }

  /** A parameter of commas only, such as ",,", splits into no parts and is a malformed range. */
  lemma CommasOnlyIsConfigError(p: string)
    requires p != [] && forall k | 0 <= k < |p| :: p[k] == ','
    ensures ParseParameter(Some(p)) == Failure(RangeArity)
  {
    assert p == [] + Repeat(',', |p|);
    OneSidedRangeIsConfigError([], |p|);
  }

  /** Three non-empty-ended pieces, as in "3,4,5" or "3,,5", are a malformed range. */
  lemma ThreePartRangeIsConfigError(a: string, b: string, c: string)
    requires ',' !in a && ',' !in b && ',' !in c && c != []
    ensures ParseParameter(Some(a + [','] + b + [','] + c)) == Failure(RangeArity)
  {
    var p := a + [','] + b + [','] + c;
    SplitAllOfJoin([a, b, c], ',');
    assert Join([a, b, c], ',') == p;
    assert p[|a|] == ',';
  }

  /** Trailing commas are tolerated: "3,5," and "3,5,," read as "3,5", because split drops
      the empty last pieces before the parts are counted. */
  lemma TrailingCommasAreIgnored(a: string, b: string, k: nat)
    requires ',' !in a && ',' !in b && b != []
    ensures ParseParameter(Some(a + [','] + b + Repeat(',', k))) == ParseParameter(Some(a + [','] + b))
  {
    RangeParameterSplits(a, b);
    SplitTwoWithTrailing(a, b, ',', k);
    assert (a + [','] + b + Repeat(',', k))[|a|] == ',';
  }

  /** Conversely, a parameter with a comma that is not refused as a malformed range is
      "min,max" followed only by commas, and it is read as the range of those two sides;
      every other text with a comma is a malformed range. */
  lemma TwoSidedRangeShape(p: string) returns (a: string, b: string, k: nat)
    requires ',' in p && ParseParameter(Some(p)) != Failure(RangeArity)
    ensures p == a + [','] + b + Repeat(',', k)
    ensures ',' !in a && ',' !in b && b != []
    ensures ParseParameter(Some(p)) == ReadRange(a, b)
  {
    a, b, k := SplitIntoTwo(p, ',');
  }

  /** A range whose two sides are the same text behaves exactly like that text as an exact
      parameter: "3,3" is "3", with the same outcome and the same message. */
  lemma SameBoundsRangeIsExact(fieldName: string, value: Option<string>, t: string)
    requires t != [] && ',' !in t
    ensures Validate(fieldName, value, Some(t + [','] + t)) == Validate(fieldName, value, Some(t))
  {
    RangeParameterSplits(t, t);
    assert ParseParameter(Some(t + [','] + t)) == ParseParameter(Some(t));
  }

  // ---------------------------------------------------------------------------
  // The value
  // ---------------------------------------------------------------------------

  /** With min = max = n, a value of digits passes exactly when it has n of them, and otherwise
      fails with the "exactly n digits" message. */
  lemma ExactCountDecides(fieldName: string, v: string, parameter: Option<string>, n: int)
    requires ParseParameter(parameter) == Success(Bounds(n, n))
    requires IsDigitString(v)
    ensures Validate(fieldName, Some(v), parameter)
         == if |v| == n then Pass else Fail(ExactMessage(fieldName, n))
  {
  }

  /** With min < max, a value of digits passes exactly when its count is within [min, max],
      and otherwise fails with the "between min and max digits" message. */
  lemma RangeCountDecides(fieldName: string, v: string, parameter: Option<string>, lo: int, hi: int)
    requires ParseParameter(parameter) == Success(Bounds(lo, hi))
    requires lo < hi
    requires IsDigitString(v)
    ensures Validate(fieldName, Some(v), parameter)
         == if lo <= |v| <= hi then Pass else Fail(RangeMessage(fieldName, lo, hi))
  {
  }

  /** A sign, a decimal point, a space or a letter anywhere in the value makes it fail with the
      "only digits" message, however many characters it has. */
  lemma NonDigitCharacterFails(fieldName: string, v: string, parameter: Option<string>, k: nat)
    requires ParseParameter(parameter).Success?
    requires k < |v| && !IsAsciiDigit(v[k])
    ensures Validate(fieldName, Some(v), parameter) == Fail(OnlyDigitsMessage(fieldName))
  {
  }

  /** An Integer value's text passes the digit check exactly when the number is not negative:
      1234 is treated as "1234", while -123 fails on its minus sign. */
  lemma IntegerValueIsDigitString(n: int)
    ensures IsDigitString(IntToString(n)) <==> n >= 0
  {
    var t := IntToString(n);
    if n < 0 {
      assert !IsAsciiDigit(t[0]);
    }
  }

  // After the common "The <field> must ", the messages part ways: "contain" against "be",
  // and then "be exactly" against "be between".

  lemma OnlyDigitsIsNotExact(fieldName: string, n: int)
    ensures OnlyDigitsMessage(fieldName) != ExactMessage(fieldName, n)
  {
    var k := 4 + |fieldName| + 6;
    assert OnlyDigitsMessage(fieldName)[k] == 'c';
    assert ExactMessage(fieldName, n)[k] == 'b';
  }

  lemma OnlyDigitsIsNotRange(fieldName: string, lo: int, hi: int)
    ensures OnlyDigitsMessage(fieldName) != RangeMessage(fieldName, lo, hi)
  {
    var k := 4 + |fieldName| + 6;
    assert OnlyDigitsMessage(fieldName)[k] == 'c';
    assert RangeMessage(fieldName, lo, hi)[k] == 'b';
  }

  lemma ExactIsNotRange(fieldName: string, n: int, lo: int, hi: int)
    ensures ExactMessage(fieldName, n) != RangeMessage(fieldName, lo, hi)
  {
    var k := 4 + |fieldName| + 9;
    assert ExactMessage(fieldName, n)[k] == 'e';
    assert RangeMessage(fieldName, lo, hi)[k] == 'b';
  }

  /** The three failure messages differ from one another for the same field, so a reader can
      tell which check the value failed. */
  lemma FailureMessagesDiffer(fieldName: string, n: int, lo: int, hi: int)
    ensures OnlyDigitsMessage(fieldName) != ExactMessage(fieldName, n)
    ensures OnlyDigitsMessage(fieldName) != RangeMessage(fieldName, lo, hi)
    ensures ExactMessage(fieldName, n) != RangeMessage(fieldName, lo, hi)
  {
    OnlyDigitsIsNotExact(fieldName, n);
    OnlyDigitsIsNotRange(fieldName, lo, hi);
    ExactIsNotRange(fieldName, n, lo, hi);
  }

  /** Text between the same prefix and suffix is told apart by that text alone. */
  lemma FramedTextEqual(pre: string, t1: string, t2: string, post: string)
    requires pre + t1 + post == pre + t2 + post
    ensures t1 == t2
  {
    var m := pre + t1 + post;
    assert |t1| == |t2|;
    assert m[|pre|..|pre| + |t1|] == t1;
    assert (pre + t2 + post)[|pre|..|pre| + |t2|] == t2;
  }

  /** Two counts joined by " and " are told apart by the first space, which neither count's
      text holds. */
  lemma {:induction false} CountPairEqual(t1: string, t2: string, u1: string, u2: string)
    requires ' ' !in t1 && ' ' !in u1
    requires t1 + " and " + t2 == u1 + " and " + u2
    ensures t1 == u1 && t2 == u2
  {
    var x := t1 + " and " + t2;
    assert x[..|t1|] == t1 && x[|t1|] == ' ';
    assert (u1 + " and " + u2)[..|u1|] == u1 && (u1 + " and " + u2)[|u1|] == ' ';
    IndexOfFirst(x, ' ', |t1|);
    IndexOfFirst(x, ' ', |u1|);
    assert x[|t1| + 5..] == t2;
    assert (u1 + " and " + u2)[|u1| + 5..] == u2;
  }

  /** The only-digits message names its field: two fields get the same message only when
      they are the same field. */
  lemma OnlyDigitsMessageNamesField(fieldName: string, other: string)
    ensures OnlyDigitsMessage(fieldName) == OnlyDigitsMessage(other) <==> fieldName == other
  {
    if OnlyDigitsMessage(fieldName) == OnlyDigitsMessage(other) {
      FramedTextEqual("The ", fieldName, other, " must contain only digits.");
    }
  }

  /** The exact-count message names the count it asked for: for one field, two counts get
      the same message only when they are the same count. */
  lemma ExactMessageNamesCount(fieldName: string, n: int, m: int)
    ensures ExactMessage(fieldName, n) == ExactMessage(fieldName, m) <==> n == m
  {
    if ExactMessage(fieldName, n) == ExactMessage(fieldName, m) {
      FramedTextEqual("The " + fieldName + " must be exactly ", IntToString(n), IntToString(m), " digits.");
      IntToStringInjective(n, m);
    }
  }

  /** The range message is a fixed frame around the two counts joined by " and ". */
  lemma RangeMessageFrame(fieldName: string, lo: int, hi: int)
    ensures RangeMessage(fieldName, lo, hi)
         == ("The " + fieldName + " must be between ") + (IntToString(lo) + " and " + IntToString(hi)) + " digits."
  {
  }

  /** The range message names both bounds: for one field, two ranges get the same message
      only when they have the same minimum and the same maximum. */
  lemma RangeMessageNamesBounds(fieldName: string, lo: int, hi: int, lo2: int, hi2: int)
    ensures RangeMessage(fieldName, lo, hi) == RangeMessage(fieldName, lo2, hi2) <==> lo == lo2 && hi == hi2
  {
    if RangeMessage(fieldName, lo, hi) == RangeMessage(fieldName, lo2, hi2) {
      RangeMessageFrame(fieldName, lo, hi);
      RangeMessageFrame(fieldName, lo2, hi2);
      FramedTextEqual("The " + fieldName + " must be between ",
        IntToString(lo) + " and " + IntToString(hi), IntToString(lo2) + " and " + IntToString(hi2), " digits.");
      CountTextIsPlain(lo);
      CountTextIsPlain(lo2);
      CountPairEqual(IntToString(lo), IntToString(hi), IntToString(lo2), IntToString(hi2));
      IntToStringInjective(lo, lo2);
      IntToStringInjective(hi, hi2);
    }
  }

  // ---------------------------------------------------------------------------
  // Documented examples
  // ---------------------------------------------------------------------------

  /** "4" reads as exactly four digits. */
  lemma FourReads()
    ensures ParseParameter(Some("4")) == Success(Bounds(4, 4))
  {
    var e: string := [];
    PaddedExactParameterReads(e, 4, e);
    assert IntToString(4) == "4";
    assert Padded(e, 4, e) == "4";
  }

  /** "3,5" reads as three to five digits. */
  lemma ThreeToFiveReads()
    ensures ParseParameter(Some("3,5")) == Success(Bounds(3, 5))
  {
    var e: string := [];
    var a, b := Padded(e, 3, e), Padded(e, 5, e);
    assert a == "3" && b == "5";
    assert "3,5" == a + [','] + b;
    PaddedRangeParameterReads(e, 3, e, e, 5, e);
  }

  /** The digit strings the examples use. */
  lemma ExampleValuesAreDigits()
    ensures IsDigitString("12") && IsDigitString("123") && IsDigitString("1234") && IsDigitString("123456")
  {
    assert NatToString(12) == "12";
    assert NatToString(123) == "123";
    assert NatToString(1234) == "1234";
    assert NatToString(123456) == "123456";
  }

  /** The messages the examples expect, written out. */
  lemma ExampleMessages(fieldName: string)
    ensures ExactMessage(fieldName, 4) == "The " + fieldName + " must be exactly 4 digits."
    ensures RangeMessage(fieldName, 3, 5) == "The " + fieldName + " must be between 3 and 5 digits."
  {
    assert IntToString(3) == "3" && IntToString(4) == "4" && IntToString(5) == "5";
  }

  /** "digits:4", as for a PIN: four digits pass, three fail with the exact-count message. */
  lemma ExactExamples(fieldName: string)
    ensures Validate(fieldName, Some("1234"), Some("4")) == Pass
    ensures Validate(fieldName, Some("123"), Some("4")) == Fail("The " + fieldName + " must be exactly 4 digits.")
  {
    FourReads();
    ExampleValuesAreDigits();
    ExampleMessages(fieldName);
    ExactCountDecides(fieldName, "1234", Some("4"), 4);
    ExactCountDecides(fieldName, "123", Some("4"), 4);
  }

  /** Under "digits:4", a letter or a minus sign fails with the only-digits message. */
  lemma NonDigitExamples(fieldName: string)
    ensures Validate(fieldName, Some("12a4"), Some("4")) == Fail("The " + fieldName + " must contain only digits.")
    ensures Validate(fieldName, Some("-123"), Some("4")) == Fail("The " + fieldName + " must contain only digits.")
  {
    FourReads();
    NonDigitCharacterFails(fieldName, "12a4", Some("4"), 2);
    NonDigitCharacterFails(fieldName, "-123", Some("4"), 0);
  }

  /** "digits:3,5": four digits pass. */
  lemma RangeExamplePasses(fieldName: string)
    ensures Validate(fieldName, Some("1234"), Some("3,5")) == Pass
  {
    ThreeToFiveReads();
    ExampleValuesAreDigits();
    RangeCountDecides(fieldName, "1234", Some("3,5"), 3, 5);
  }

  /** "digits:3,5": two or six digits fail with the range message. */
  lemma RangeExamplesFail(fieldName: string)
    ensures Validate(fieldName, Some("12"), Some("3,5")) == Fail("The " + fieldName + " must be between 3 and 5 digits.")
    ensures Validate(fieldName, Some("123456"), Some("3,5")) == Fail("The " + fieldName + " must be between 3 and 5 digits.")
  {
    ThreeToFiveReads();
    ExampleValuesAreDigits();
    ExampleMessages(fieldName);
    RangeCountDecides(fieldName, "12", Some("3,5"), 3, 5);
    RangeCountDecides(fieldName, "123456", Some("3,5"), 3, 5);
  }

  /** "0" is not a positive count. */
  lemma ZeroReads()
    ensures ParseParameter(Some("0")) == Failure(NotPositive)
  {
    var e: string := [];
    PaddedExactParameterReads(e, 0, e);
    assert IntToString(0) == "0";
    assert Padded(e, 0, e) == "0";
  }

  /** "5,3" has its minimum above its maximum. */
  lemma FiveToThreeReads()
    ensures ParseParameter(Some("5,3")) == Failure(MinAboveMax)
  {
    var e: string := [];
    var a, b := Padded(e, 5, e), Padded(e, 3, e);
    assert a == "5" && b == "3";
    assert "5,3" == a + [','] + b;
    PaddedRangeParameterReads(e, 5, e, e, 3, e);
  }

  /** "digits:0" and "digits:5,3" are configuration errors, whatever the value. */
  lemma ConfigErrorExamples(fieldName: string, v: string)
    ensures Validate(fieldName, Some(v), Some("0")) == ConfigError(NotPositive)
    ensures Validate(fieldName, Some(v), Some("5,3")) == ConfigError(MinAboveMax)
  {
    ZeroReads();
    FiveToThreeReads();
  }
}
