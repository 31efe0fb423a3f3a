# The javalidator `digits` rule, in Dafny

javalidator checks annotated Java fields against rule expressions such as
`@Rule("digits:4")` or `@Rule("digits:3,5")`. This project models the `digits` rule:
its `validate` operation and its registered name. A call ends in one of three ways:

- it passes (`null` in Java) when the value is null, or when the value's text is one or more of the digits 0-9 and their count is
  exactly `n` or lies between `min` and `max`;
- it fails with one of three messages (only digits, exactly n, between min and max);
- it raises a configuration error (an `IllegalArgumentException` in Java) when the
  parameter is missing, malformed, not a positive `int`, or a range with min above max.

The model is pure, as the rule is. It has four modules:

- `Results` (results.dfy): `Option` and `Result`.
- `JavaText` (java_text.dfy): the parts of `java.lang.String` and
  `java.lang.Integer` the rule depends on. These are `trim`, `parseInt` (with its 32-bit
  range), `toString` for an `int`, and `split` with a one-character separator (trailing
  empty strings dropped). Each is written out, and its own properties are proved.
- `DigitsRule` (digits_rule.dfy): the rule itself. The parameter is read by
  `ParseParameter`, `ReadExact` and `ReadRange`. `Validate` is the whole decision.
  Its result is an `Outcome`: `Pass`, `Fail(message)` or `ConfigError(reason)`.
- `DigitsRuleProperties` (digits_rule_properties.dfy): what the rule promises, stated
  over the parameter text an author writes and the value text a caller supplies.

Every path in the table below is relative to the repository root.

## Model

| member | source | states |
|---|---|---|
| JavaText.Trim | javalidator-core/src/main/java/io/github/emmajiugo/javalidator/rules/DigitsRule.java:74 | the result is no longer than the input; it is empty exactly when every input character is at most U+0020; otherwise neither of its ends is such a character |
| JavaText.TrimPadded | javalidator-core/src/main/java/io/github/emmajiugo/javalidator/rules/DigitsRule.java:74 | trimming text padded on both sides with characters at most U+0020 gives back exactly the text, when the text has no such character at either end |
| JavaText.ParseInt | javalidator-core/src/main/java/io/github/emmajiugo/javalidator/rules/DigitsRule.java:60-61 | a number read by Integer.parseInt is always within the Java int range |
| JavaText.ParseIntOfSignedDigits | javalidator-core/src/main/java/io/github/emmajiugo/javalidator/rules/DigitsRule.java:60-61 | an optional '+' or '-' followed by one or more digits is read as their decimal value, negated after '-', when that value fits an int, and is refused otherwise (so "+5" reads as 5) |
| JavaText.ParsedTextIsSignedDigits | javalidator-core/src/main/java/io/github/emmajiugo/javalidator/rules/DigitsRule.java:60-61 | conversely, every text parseInt accepts is an optional sign followed by one or more digits, and the number read is their value, negated after '-' |
| JavaText.ParseIntOfToString | javalidator-core/src/main/java/io/github/emmajiugo/javalidator/rules/DigitsRule.java:74 | parseInt reads back exactly the number Integer.toString wrote, for every Java int, and rejects every text of a number outside the int range |
| JavaText.ParseIntIgnoresLeadingZeros | javalidator-core/src/main/java/io/github/emmajiugo/javalidator/rules/DigitsRule.java:74 | a count written with leading zeros ("05") reads as the count itself |
| JavaText.ParseIntRejectsNonDigit | javalidator-core/src/main/java/io/github/emmajiugo/javalidator/rules/DigitsRule.java:76-77 | any character that is not a digit, other than a sign in front of digits, makes parseInt fail (the NumberFormatException path) |
| JavaText.NatToString | javalidator-core/src/main/java/io/github/emmajiugo/javalidator/rules/DigitsRule.java:98 | the decimal text of a count is non-empty, all digits, denotes that count, and has no leading zero unless it is the single digit 0 |
| JavaText.IntToString | javalidator-core/src/main/java/io/github/emmajiugo/javalidator/rules/DigitsRule.java:98 | the text of an int, as string concatenation writes it: it starts with '-' exactly when the number is negative, and after any sign come one or more digits whose value is the number's magnitude, with no leading zero unless the magnitude is 0; ParseIntOfToString shows parseInt reads it back |
| JavaText.IntToStringInjective | javalidator-core/src/main/java/io/github/emmajiugo/javalidator/rules/DigitsRule.java:98 | two numbers have the same text exactly when they are equal |
| JavaText.IndexOf | javalidator-core/src/main/java/io/github/emmajiugo/javalidator/rules/DigitsRule.java:55 | the separator search returns the first position holding the separator |
| JavaText.IndexOfFirst | javalidator-core/src/main/java/io/github/emmajiugo/javalidator/rules/DigitsRule.java:55 | any position that holds the separator, with no separator before it, is the one the search returns |
| JavaText.SplitAll | javalidator-core/src/main/java/io/github/emmajiugo/javalidator/rules/DigitsRule.java:55 | split's pieces before the tail is trimmed: at least one piece, none containing the separator, and together with the separators they rebuild the input |
| JavaText.SplitAllOfJoin | javalidator-core/src/main/java/io/github/emmajiugo/javalidator/rules/DigitsRule.java:55 | pieces without the separator, joined with it and split again, come back unchanged, empty pieces included |
| JavaText.DropTrailingEmpty | javalidator-core/src/main/java/io/github/emmajiugo/javalidator/rules/DigitsRule.java:55 | the result is a prefix of the pieces that ends in a non-empty piece, and only empty pieces were removed |
| JavaText.Split | javalidator-core/src/main/java/io/github/emmajiugo/javalidator/rules/DigitsRule.java:55 | text without the separator is its own single part; otherwise no part holds the separator and the last part is never empty |
| JavaText.SplitTwo | javalidator-core/src/main/java/io/github/emmajiugo/javalidator/rules/DigitsRule.java:55-56 | "a,b" with comma-free sides and a non-empty right side splits into exactly [a, b] |
| JavaText.SplitTwoWithTrailing | javalidator-core/src/main/java/io/github/emmajiugo/javalidator/rules/DigitsRule.java:55-56 | "a,b" followed by any run of commas ("a,b,", "a,b,,") splits into exactly [a, b] |
| JavaText.SplitIntoTwo | javalidator-core/src/main/java/io/github/emmajiugo/javalidator/rules/DigitsRule.java:55-56 | conversely, text that splits into exactly two parts is "a,b" followed only by commas, with comma-free sides and a non-empty right side |
| JavaText.SplitOneWithTrailing | javalidator-core/src/main/java/io/github/emmajiugo/javalidator/rules/DigitsRule.java:55-56 | "a" followed by one or more commas splits into [a], or into no parts at all when a is empty |
| JavaText.SplitOfSeparatorsOnly | javalidator-core/src/main/java/io/github/emmajiugo/javalidator/rules/DigitsRule.java:55-56 | text made only of commas splits into no parts |
| DigitsRule.Name | javalidator-core/src/main/java/io/github/emmajiugo/javalidator/rules/DigitsRule.java:110-113 | the registered name is non-empty and holds neither the bar nor the colon, which separate rules and parameters in a rule expression |
| DigitsRule.ReadExact | javalidator-core/src/main/java/io/github/emmajiugo/javalidator/rules/DigitsRule.java:73-81 | an accepted exact parameter gives min = max = the number parseInt reads from the trimmed text, with 1 <= n <= the largest int; it is refused as "not an integer" exactly when parseInt rejects the trimmed text, and otherwise only as "not positive" |
| DigitsRule.ReadRange | javalidator-core/src/main/java/io/github/emmajiugo/javalidator/rules/DigitsRule.java:59-70 | an accepted range gives min and max equal to the numbers parseInt reads from the two trimmed sides, with 1 <= min <= max <= the largest int; it is refused as "not an integer" exactly when parseInt rejects either side, and otherwise only as "not positive" or "min above max" |
| DigitsRule.ParseParameter | javalidator-core/src/main/java/io/github/emmajiugo/javalidator/rules/DigitsRule.java:44-82 | accepted bounds satisfy 1 <= min <= max <= the largest int; a comma-free parameter, once accepted, gives min = max = the number parseInt reads from its trimmed text; the parameter is reported missing exactly when it is null or empty |
| DigitsRule.Validate | javalidator-core/src/main/java/io/github/emmajiugo/javalidator/rules/DigitsRule.java:38-108 | a null value passes; for a present value the result is a configuration error exactly when the parameter is unusable, and then it carries that reason; a value that is not a digit string (IsDigitString: one or more of 0-9, the full match of `\d+`) fails with the only-digits message; the result is Pass exactly when the value is null, or the parameter is usable and Accepts holds: a digit string whose length lies within [min, max], which is the exact check when min = max and the range check otherwise (ExactCountDecides, RangeCountDecides) |
| DigitsRuleProperties.MissingParameterIsConfigError | javalidator-core/src/main/java/io/github/emmajiugo/javalidator/rules/DigitsRule.java:44-47 | a null or empty parameter with a present value is a configuration error, whatever the value |
| DigitsRuleProperties.PaddedCountReads | javalidator-core/src/main/java/io/github/emmajiugo/javalidator/rules/DigitsRule.java:73-75 | an int written with padding around it holds no comma and trims and parses back to that int |
| DigitsRuleProperties.ExactParameterReads | javalidator-core/src/main/java/io/github/emmajiugo/javalidator/rules/DigitsRule.java:73-81 | any non-empty comma-free parameter whose trimmed text parseInt reads as n ("5", " 05 ", "+5", "-0") gives min = max = n when n >= 1, and "not positive" otherwise |
| DigitsRuleProperties.PaddedExactParameterReads | javalidator-core/src/main/java/io/github/emmajiugo/javalidator/rules/DigitsRule.java:73-81 | in particular a count written as Integer.toString writes it, with any padding, reads as that count when it is at least 1 |
| DigitsRuleProperties.ExactParameterNotAnInteger | javalidator-core/src/main/java/io/github/emmajiugo/javalidator/rules/DigitsRule.java:73-78 | a comma-free parameter whose trimmed text is not an int is refused as "not an integer" |
| DigitsRuleProperties.RangeParameterSplits | javalidator-core/src/main/java/io/github/emmajiugo/javalidator/rules/DigitsRule.java:53-61 | text with exactly one comma and a non-empty right side is read as a range of its two sides |
| DigitsRuleProperties.RangeParameterReads | javalidator-core/src/main/java/io/github/emmajiugo/javalidator/rules/DigitsRule.java:59-70 | for comma-free sides a and b (b not empty) whose trimmed texts parseInt reads as lo and hi, "a,b" is "not positive" if either is below 1; otherwise "min above max" if lo > hi; otherwise it is accepted as [lo, hi] |
| DigitsRuleProperties.PaddedRangeParameterReads | javalidator-core/src/main/java/io/github/emmajiugo/javalidator/rules/DigitsRule.java:59-70 | in particular two counts written as Integer.toString writes them, each side padded, read in that same order of checks |
| DigitsRuleProperties.RangeParameterNotAnInteger | javalidator-core/src/main/java/io/github/emmajiugo/javalidator/rules/DigitsRule.java:59-64 | a range side that does not trim to an int makes the range "not an integer" |
| DigitsRuleProperties.OneSidedRangeIsConfigError | javalidator-core/src/main/java/io/github/emmajiugo/javalidator/rules/DigitsRule.java:53-58 | "a" followed by one or more commas ("3,", "3,,", ",") does not split into two parts and is refused as a malformed range |
| DigitsRuleProperties.CommasOnlyIsConfigError | javalidator-core/src/main/java/io/github/emmajiugo/javalidator/rules/DigitsRule.java:53-58 | a parameter of commas only is refused as a malformed range |
| DigitsRuleProperties.ThreePartRangeIsConfigError | javalidator-core/src/main/java/io/github/emmajiugo/javalidator/rules/DigitsRule.java:53-58 | "a,b,c" with a non-empty last piece is refused as a malformed range |
| DigitsRuleProperties.TrailingCommasAreIgnored | javalidator-core/src/main/java/io/github/emmajiugo/javalidator/rules/DigitsRule.java:53-58 | "a,b" followed by any run of commas is read exactly as "a,b" |
| DigitsRuleProperties.TwoSidedRangeShape | javalidator-core/src/main/java/io/github/emmajiugo/javalidator/rules/DigitsRule.java:53-58 | conversely, a parameter with a comma that is not refused as a malformed range is "a,b" followed only by commas, with comma-free sides and a non-empty right side, and it is read as the range of a and b |
| DigitsRuleProperties.SameBoundsRangeIsExact | javalidator-core/src/main/java/io/github/emmajiugo/javalidator/rules/DigitsRule.java:95-99 | "t,t" behaves exactly as the exact parameter "t" for every field and value |
| DigitsRuleProperties.ExactCountDecides | javalidator-core/src/main/java/io/github/emmajiugo/javalidator/rules/DigitsRule.java:95-99 | with min = max = n, a digit string passes exactly when it has n digits, and otherwise fails with the exactly-n message |
| DigitsRuleProperties.RangeCountDecides | javalidator-core/src/main/java/io/github/emmajiugo/javalidator/rules/DigitsRule.java:100-104 | with min < max, a digit string passes exactly when its length is within [min, max], and otherwise fails with the between-min-and-max message |
| DigitsRuleProperties.NonDigitCharacterFails | javalidator-core/src/main/java/io/github/emmajiugo/javalidator/rules/DigitsRule.java:87-90 | a sign, space, letter or any other non-digit anywhere in the value fails with the only-digits message |
| DigitsRuleProperties.IntegerValueIsDigitString | javalidator-core/src/main/java/io/github/emmajiugo/javalidator/rules/DigitsRule.java:85-88 | the text of an Integer value passes the digit check (IsDigitString, a full match of `\d+`) exactly when the number is not negative |
| DigitsRuleProperties.FailureMessagesDiffer | javalidator-core/src/main/java/io/github/emmajiugo/javalidator/rules/DigitsRule.java:89-103 | for one field the three failure messages all differ, so a message tells which check failed |
| DigitsRuleProperties.OnlyDigitsMessageNamesField | javalidator-core/src/main/java/io/github/emmajiugo/javalidator/rules/DigitsRule.java:89 | OnlyDigitsMessage names the field: two fields get the same message exactly when they are the same field |
| DigitsRuleProperties.ExactMessageNamesCount | javalidator-core/src/main/java/io/github/emmajiugo/javalidator/rules/DigitsRule.java:98 | ExactMessage names the count: for one field, two counts get the same message exactly when they are equal |
| DigitsRuleProperties.RangeMessageNamesBounds | javalidator-core/src/main/java/io/github/emmajiugo/javalidator/rules/DigitsRule.java:103 | RangeMessage names both bounds: for one field, two ranges get the same message exactly when both their minimum and their maximum agree |
| DigitsRuleProperties.ExampleMessages | javalidator-core/src/main/java/io/github/emmajiugo/javalidator/rules/DigitsRule.java:98-103 | the exact-4 and 3-to-5 messages written out: "The <field> must be exactly 4 digits." and "The <field> must be between 3 and 5 digits." |
| DigitsRuleProperties.FourReads | javalidator-core/src/main/java/io/github/emmajiugo/javalidator/rules/DigitsRule.java:19 | "4" reads as exactly four digits |
| DigitsRuleProperties.ThreeToFiveReads | javalidator-core/src/main/java/io/github/emmajiugo/javalidator/rules/DigitsRule.java:20 | "3,5" reads as three to five digits |
| DigitsRuleProperties.ExactExamples | javalidator-core/src/main/java/io/github/emmajiugo/javalidator/rules/DigitsRule.java:19 | under "digits:4", "1234" passes and "123" fails with "The <field> must be exactly 4 digits." |
| DigitsRuleProperties.NonDigitExamples | javalidator-core/src/main/java/io/github/emmajiugo/javalidator/rules/DigitsRule.java:32-33 | under "digits:4", "12a4" and "-123" fail with "The <field> must contain only digits." |
| DigitsRuleProperties.RangeExamplePasses | javalidator-core/src/main/java/io/github/emmajiugo/javalidator/rules/DigitsRule.java:20 | under "digits:3,5", "1234" passes |
| DigitsRuleProperties.RangeExamplesFail | javalidator-core/src/main/java/io/github/emmajiugo/javalidator/rules/DigitsRule.java:100-104 | under "digits:3,5", "12" and "123456" fail with "The <field> must be between 3 and 5 digits." |
| DigitsRuleProperties.ZeroReads | javalidator-core/src/main/java/io/github/emmajiugo/javalidator/rules/DigitsRule.java:79-81 | "0" is refused as not positive |
| DigitsRuleProperties.FiveToThreeReads | javalidator-core/src/main/java/io/github/emmajiugo/javalidator/rules/DigitsRule.java:68-70 | "5,3" is refused as min above max |
| DigitsRuleProperties.ConfigErrorExamples | javalidator-core/src/main/java/io/github/emmajiugo/javalidator/rules/DigitsRule.java:65-70 | "digits:0" and "digits:5,3" are configuration errors for every value |

## Left out

- `value.toString()` for arbitrary objects is not modelled. The value is taken as its
  text already (`Option<string>`, with `None` for null). This covers the rule's own
  examples, strings and boxed integers alike.
- The regular-expression engine is not modelled. `matches("\\d+")` is modelled
  directly as "non-empty and every character in 0-9", which is what Java's default `\d`
  matches.
- The text of each IllegalArgumentException is not modelled. A configuration error
  carries a `ConfigReason` tag naming which check failed.
- JavaText.ParseInt: reads ASCII digits only. Integer.parseInt also accepts other
  Unicode decimal digits through Character.digit, so such a parameter is
  "not an integer" here but a number in Java.
- A null `fieldName` is not modelled: Java would write "null" into the message. Here the
  field name is always a string.
- Java strings are UTF-16 code units; here a string is a sequence of characters. For a
  value that is all digits 0-9 the two lengths agree, so the count is unaffected.
- `String.split` is modelled for a one-character separator that is not a
  regular-expression metacharacter, which is the only way the rule calls it.
- The ValidationRule interface, the rule registry, the rule-expression parser, the
  validator that walks objects and collects messages, and the other rules are not
  part of this model.
