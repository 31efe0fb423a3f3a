/** The few java.lang.String and java.lang.Integer operations the digits rule relies on,
    written as pure functions over `string` (a sequence of characters). */
module JavaText {
  import opened Results

  /** The range of a Java `int`. */
  const IntMin: int := -0x8000_0000
  const IntMax: int := 0x7FFF_FFFF

  predicate IsJavaInt(n: int) {
    IntMin <= n <= IntMax
  }

  // ---------------------------------------------------------------------------
  // String.trim
  // ---------------------------------------------------------------------------

  /** String.trim removes every leading and trailing character whose code is at most U+0020. */
  predicate IsTrimmable(c: char) {
    c <= ' '
  }

  predicate AllTrimmable(s: string) {
    forall k | 0 <= k < |s| :: IsTrimmable(s[k])
  }

  /** `s` without its leading trimmable characters: a suffix of `s` that starts with a kept character. */
  function TrimStart(s: string): (r: string)
    ensures |r| <= |s| && r == s[|s| - |r|..]
    ensures r == [] || !IsTrimmable(r[0])
    ensures AllTrimmable(s[..|s| - |r|])
  {
    if s != [] && IsTrimmable(s[0]) then
      var r := TrimStart(s[1..]);
      assert s[..|s| - |r|] == [s[0]] + s[1..][..|s| - 1 - |r|];
      r
    else
      s
  }

  /** `s` without its trailing trimmable characters: a prefix of `s` that ends with a kept character. */
  function TrimEnd(s: string): (r: string)
    ensures |r| <= |s| && r == s[..|r|]
    ensures r == [] || !IsTrimmable(r[|r| - 1])
    ensures AllTrimmable(s[|r|..])
  {
    if s != [] && IsTrimmable(s[|s| - 1]) then
      var r := TrimEnd(s[..|s| - 1]);
      assert s[|r|..] == s[..|s| - 1][|r|..] + [s[|s| - 1]];
      r
    else
      s
  }

  /** java.lang.String.trim: `s` without its leading and trailing trimmable characters. */
  function Trim(s: string): (r: string)
    ensures |r| <= |s|
    ensures r == [] <==> AllTrimmable(s)
    ensures r == [] || (!IsTrimmable(r[0]) && !IsTrimmable(r[|r| - 1]))
  {
    TrimEnd(TrimStart(s))
  }

  // ---------------------------------------------------------------------------
  // Integer.parseInt and Integer.toString
  // ---------------------------------------------------------------------------

  predicate IsAsciiDigit(c: char) {
    '0' <= c <= '9'
  }

  predicate AllDigits(s: string) {
    forall k | 0 <= k < |s| :: IsAsciiDigit(s[k])
  }

  function DigitValue(c: char): (d: nat)
    requires IsAsciiDigit(c)
    ensures d < 10
  {
    (c as int) - ('0' as int)
  }

  function DigitChar(d: nat): (c: char)
    requires d < 10
    ensures IsAsciiDigit(c) && DigitValue(c) == d
  {
    (('0' as int) + d) as char
  }

  /** The value of a string of decimal digits, most significant first; leading zeros add nothing. */
  function DecimalValue(s: string): nat
    requires AllDigits(s)
  {
    if s == [] then 0 else DecimalValue(s[..|s| - 1]) * 10 + DigitValue(s[|s| - 1])
  }

  /** java.lang.Integer.parseInt(s) with radix 10: an optional single '+' or '-', then one
      or more digits, whose value must fit a Java `int`; `None` stands for the
      NumberFormatException thrown otherwise. */
  function ParseInt(s: string): (r: Option<int>)
    ensures r.Some? ==> IsJavaInt(r.value)
  {
    if s == [] then None
    else
      var digits := if s[0] == '-' || s[0] == '+' then s[1..] else s;
      if digits == [] || !AllDigits(digits) then None
      else
        var magnitude: int := DecimalValue(digits);
        var v := if s[0] == '-' then -magnitude else magnitude;
        if IsJavaInt(v) then Some(v) else None
  }

  /** The decimal digits of `n`, without leading zeros. */
  function NatToString(n: nat): (s: string)
    ensures s != [] && AllDigits(s) && DecimalValue(s) == n
    ensures |s| == 1 || s[0] != '0'
  {
    if n < 10 then [DigitChar(n)]
    else
      var s := NatToString(n / 10) + [DigitChar(n % 10)];
      assert s[..|s| - 1] == NatToString(n / 10);
      s
  }

  /** java.lang.Integer.toString(n), which is also what string concatenation writes for an `int`. */
  function IntToString(n: int): (s: string)
    ensures s != [] && (s[0] == '-' <==> n < 0)
    ensures AllDigits(if n < 0 then s[1..] else s)
    ensures var m := if n < 0 then s[1..] else s;
      m != [] && DecimalValue(m) == (if n < 0 then -n else n) && (|m| == 1 || m[0] != '0')
  {
    if n < 0 then
      var t := NatToString(-n);
      assert (['-'] + t)[1..] == t;
      ['-'] + t
    else NatToString(n)
  }

  // ---------------------------------------------------------------------------
  // String.split with a one-character separator
  // ---------------------------------------------------------------------------

  /** The index of the first `c` in `s` (String.indexOf). */
  function IndexOf(s: string, c: char): (i: nat)
    requires c in s
    ensures i < |s| && s[i] == c && c !in s[..i]
  {
    if s[0] == c then 0
    else
      var i := IndexOf(s[1..], c) + 1;
      assert s[..i] == [s[0]] + s[1..][..i - 1];
      i
  }

  /** The parts joined back with `sep` between consecutive parts. */
  function Join(parts: seq<string>, sep: char): string
  {
    if |parts| == 0 then []
    else if |parts| == 1 then parts[0]
    else parts[0] + [sep] + Join(parts[1..], sep)
  }

  /** Every piece of `s` between separators, empty pieces included: the list that the
      JDK's split fast path collects with its indexOf loop before it trims the tail. */
  function SplitAll(s: string, sep: char): (parts: seq<string>)
    ensures |parts| >= 1
    ensures forall i | 0 <= i < |parts| :: sep !in parts[i]
    ensures Join(parts, sep) == s
    decreases |s|
  {
    if sep !in s then [s]
    else
      var i := IndexOf(s, sep);
      var rest := SplitAll(s[i + 1..], sep);
      assert s == s[..i] + [sep] + s[i + 1..];
      [s[..i]] + rest
  }

  /** `parts` without its trailing empty strings. */
  function DropTrailingEmpty(parts: seq<string>): (r: seq<string>)
    ensures |r| <= |parts| && r == parts[..|r|]
    ensures r == [] || r[|r| - 1] != []
    ensures forall k | |r| <= k < |parts| :: parts[k] == []
  {
    if parts != [] && parts[|parts| - 1] == [] then DropTrailingEmpty(parts[..|parts| - 1])
    else parts
  }

  /** java.lang.String.split(String.valueOf(sep)) for a separator that is not a regular-expression
      metacharacter, with limit 0: a string without the separator gives itself as the one part;
      otherwise the pieces between separators, with trailing empty pieces removed. */
  function Split(s: string, sep: char): (parts: seq<string>)
    ensures sep !in s ==> parts == [s]
    ensures sep in s ==> parts == [] || parts[|parts| - 1] != []
    ensures forall i | 0 <= i < |parts| :: sep !in parts[i]
  {
    if sep !in s then [s] else DropTrailingEmpty(SplitAll(s, sep))
  }

  // ---------------------------------------------------------------------------
  // Properties
  // ---------------------------------------------------------------------------

  /** TrimStart removes a trimmable prefix and stops at the first kept character. */
  lemma {:induction false} TrimStartPadded(pre: string, rest: string)
    requires AllTrimmable(pre)
    requires rest == [] || !IsTrimmable(rest[0])
    ensures TrimStart(pre + rest) == rest
  {
    if pre != [] {
      assert (pre + rest)[1..] == pre[1..] + rest;
      TrimStartPadded(pre[1..], rest);
    } else {
      assert pre + rest == rest;
    }
  }

  /** TrimEnd removes a trimmable suffix and stops at the last kept character. */
  lemma {:induction false} TrimEndPadded(rest: string, post: string)
    requires AllTrimmable(post)
    requires rest == [] || !IsTrimmable(rest[|rest| - 1])
    ensures TrimEnd(rest + post) == rest
  {
    if post != [] {
      assert (rest + post)[..|rest + post| - 1] == rest + post[..|post| - 1];
      TrimEndPadded(rest, post[..|post| - 1]);
    } else {
      assert rest + post == rest;
    }
  }

  /** Trim strips exactly the padding: any text that neither starts nor ends with a trimmable
      character comes back unchanged from between any trimmable prefix and suffix. */
  lemma TrimPadded(pre: string, t: string, post: string)
    requires AllTrimmable(pre) && AllTrimmable(post)
    requires t == [] || (!IsTrimmable(t[0]) && !IsTrimmable(t[|t| - 1]))
    ensures Trim(pre + t + post) == t
  {
    var s := pre + t + post;
    if t == [] {
      assert AllTrimmable(s) by {
        forall k | 0 <= k < |s| ensures IsTrimmable(s[k]) {
          if k >= |pre| { assert s[k] == post[k - |pre|]; }
        }
      }
      TrimStartPadded(s, []);
      assert s + [] == s;
    } else {
      assert s == pre + (t + post);
      TrimStartPadded(pre, t + post);
      TrimEndPadded(t, post);
    }
  }

  /** Integer.parseInt reads back what Integer.toString writes, exactly for the values of a
      Java `int`; a decimal string for a value outside that range is rejected. */
  lemma ParseIntOfToString(n: int)
    ensures ParseInt(IntToString(n)) == if IsJavaInt(n) then Some(n) else None
  {
    var s := IntToString(n);
    if n < 0 {
      assert s[1..] == NatToString(-n);
    }
  }

  /** Leading zeros do not change the value Integer.parseInt reads. */
  lemma {:induction false} DecimalValueLeadingZeros(zeros: string, d: string)
    requires forall k | 0 <= k < |zeros| :: zeros[k] == '0'
    requires AllDigits(d)
    ensures AllDigits(zeros + d) && DecimalValue(zeros + d) == DecimalValue(d)
    decreases |zeros| + |d|
  {
    var s := zeros + d;
    assert AllDigits(s) by {
      forall k | 0 <= k < |s| ensures IsAsciiDigit(s[k]) {
        if k >= |zeros| { assert s[k] == d[k - |zeros|]; }
      }
    }
    if d == [] {
      if zeros != [] {
        assert s[..|s| - 1] == zeros[..|zeros| - 1] + [];
        DecimalValueLeadingZeros(zeros[..|zeros| - 1], []);
      }
    } else {
      assert s[..|s| - 1] == zeros + d[..|d| - 1];
      DecimalValueLeadingZeros(zeros, d[..|d| - 1]);
    }
  }

  /** So a parameter written with leading zeros, such as "05", reads as the number it pads. */
  lemma ParseIntIgnoresLeadingZeros(zeros: string, n: nat)
    requires forall k | 0 <= k < |zeros| :: zeros[k] == '0'
    requires n <= IntMax
    ensures ParseInt(zeros + IntToString(n)) == Some(n)
  {
    DecimalValueLeadingZeros(zeros, NatToString(n));
    var s := zeros + IntToString(n);
    assert s[0] == '0' || s[0] == NatToString(n)[0];
  }

  /** Integer.parseInt throws on any character that is not a digit, other than a leading sign
      that is followed by something; this covers the empty string and a lone sign. */
  lemma ParseIntRejectsNonDigit(s: string, k: nat)
    requires k < |s| && !IsAsciiDigit(s[k])
    requires !(k == 0 && |s| > 1 && (s[0] == '-' || s[0] == '+'))
    ensures ParseInt(s) == None
  {
    if k > 0 && (s[0] == '-' || s[0] == '+') {
      assert s[1..][k - 1] == s[k];
    }
  }

  /** Different numbers have different texts. */
  lemma IntToStringInjective(n: int, m: int)
    ensures IntToString(n) == IntToString(m) <==> n == m
  {
    if IntToString(n) == IntToString(m) {
      if n < 0 {
        assert IntToString(n)[1..] == NatToString(-n);
        assert IntToString(m)[1..] == NatToString(-m);
      }
    }
  }

  /** Integer.parseInt accepts an optional '+' or '-' followed by one or more digits: it
      reads their decimal value, negated after '-', when that value fits an int. */
  lemma ParseIntOfSignedDigits(sign: string, d: string)
    requires sign == [] || sign == ['+'] || sign == ['-']
    requires d != [] && AllDigits(d)
    ensures ParseInt(sign + d) ==
      (var v: int := if sign == ['-'] then -(DecimalValue(d) as int) else DecimalValue(d);
       if IsJavaInt(v) then Some(v) else None)
  {
    if sign == [] {
      assert sign + d == d;
    } else {
      assert (sign + d)[1..] == d;
    }
  }

  /** Conversely, every text Integer.parseInt accepts is such a sign and such digits, and
      the number read is their value. */
  lemma ParsedTextIsSignedDigits(s: string) returns (sign: string, d: string)
    requires ParseInt(s).Some?
    ensures s == sign + d
    ensures sign == [] || sign == ['+'] || sign == ['-']
    ensures d != [] && AllDigits(d)
    ensures ParseInt(s).value == if sign == ['-'] then -(DecimalValue(d) as int) else DecimalValue(d)
  {
    if s[0] == '-' || s[0] == '+' {
      sign, d := [s[0]], s[1..];
    } else {
      sign, d := [], s;
    }
  }

  /** IndexOf finds the first occurrence, whatever else follows it. */
  lemma {:induction false} IndexOfFirst(s: string, c: char, j: nat)
    requires j < |s| && s[j] == c && c !in s[..j]
    ensures IndexOf(s, c) == j
  {
    if j > 0 {
      assert s[..j][0] == s[0];
      assert s[1..][..j - 1] == s[..j][1..];
      IndexOfFirst(s[1..], c, j - 1);
    }
  }

  /** Splitting undoes joining: pieces without the separator come back exactly, empty ones
      included (the other direction, joining undoes splitting, is SplitAll's contract). */
  lemma {:induction false} SplitAllOfJoin(parts: seq<string>, sep: char)
    requires |parts| >= 1
    requires forall i | 0 <= i < |parts| :: sep !in parts[i]
    ensures SplitAll(Join(parts, sep), sep) == parts
  {
    if |parts| > 1 {
      var head, tail := parts[0], Join(parts[1..], sep);
      var s := Join(parts, sep);
      assert s == head + [sep] + tail;
      assert s[..|head|] == head && s[|head|] == sep;
      IndexOfFirst(s, sep, |head|);
      assert s[|head| + 1..] == tail;
      SplitAllOfJoin(parts[1..], sep);
      calc {
        SplitAll(s, sep);
        [head] + SplitAll(tail, sep);
        [head] + parts[1..];
        parts;
      }
    } else {
      assert Join(parts, sep) == parts[0];
    }
  }

  /** Two pieces joined: the helper the two-part and trailing-separator cases share. */
  lemma JoinTwo(a: string, b: string, sep: char)
    ensures Join([a, b], sep) == a + [sep] + b
  {
    assert [a, b][1..] == [b];
  }

  /** "a,b" splits into exactly its two sides when the right side is not empty. */
  lemma SplitTwo(a: string, b: string, sep: char)
    requires sep !in a && sep !in b && b != []
    ensures Split(a + [sep] + b, sep) == [a, b]
  {
    JoinTwo(a, b, sep);
    SplitAllOfJoin([a, b], sep);
    assert (a + [sep] + b)[|a|] == sep;
  }

  /** `k` copies of the separator. */
  function Repeat(c: char, k: nat): string {
    seq(k, _ => c)
  }

  /** `k` empty pieces. */
  function EmptyPieces(k: nat): seq<string> {
    seq(k, _ => [])
  }

  /** A piece followed by `k` empty pieces joins to the piece followed by `k` separators. */
  lemma {:induction false} JoinEmptyPieces(b: string, sep: char, k: nat)
    ensures Join([b] + EmptyPieces(k), sep) == b + Repeat(sep, k)
    decreases k
  {
    if k == 0 {
      assert [b] + EmptyPieces(0) == [b];
      assert b + Repeat(sep, 0) == b;
    } else {
      var parts := [b] + EmptyPieces(k);
      assert parts[1..] == [[]] + EmptyPieces(k - 1);
      JoinEmptyPieces([], sep, k - 1);
      assert [] + Repeat(sep, k - 1) == Repeat(sep, k - 1);
      assert Repeat(sep, k) == [sep] + Repeat(sep, k - 1);
    }
  }

  /** The pieces a and b followed by `k` empty pieces join to "a,b" followed by `k` separators. */
  lemma JoinTwoPadded(a: string, b: string, sep: char, k: nat)
    ensures Join([a, b] + EmptyPieces(k), sep) == a + [sep] + b + Repeat(sep, k)
  {
    var parts := [a, b] + EmptyPieces(k);
    assert parts[1..] == [b] + EmptyPieces(k);
    JoinEmptyPieces(b, sep, k);
  }

  /** Empty pieces at the end are exactly what DropTrailingEmpty removes. */
  lemma {:induction false} DropEmptyPieces(parts: seq<string>, k: nat)
    requires parts == [] || parts[|parts| - 1] != []
    ensures DropTrailingEmpty(parts + EmptyPieces(k)) == parts
  {
    if k == 0 {
      assert parts + EmptyPieces(0) == parts;
    } else {
      var padded := parts + EmptyPieces(k);
      assert padded[..|padded| - 1] == parts + EmptyPieces(k - 1);
      DropEmptyPieces(parts, k - 1);
    }
  }

  /** Trailing separators add only empty pieces, which split drops: "a,b" followed by any
      run of separators splits as "a,b" does. */
  lemma SplitTwoWithTrailing(a: string, b: string, sep: char, k: nat)
    requires sep !in a && sep !in b && b != []
    ensures Split(a + [sep] + b + Repeat(sep, k), sep) == [a, b]
  {
    var s := a + [sep] + b + Repeat(sep, k);
    var parts := [a, b] + EmptyPieces(k);
    JoinTwoPadded(a, b, sep, k);
    forall i | 0 <= i < |parts| ensures sep !in parts[i] {
      if i >= 2 {
        assert parts[i] == [];
      }
    }
    SplitAllOfJoin(parts, sep);
    assert s[|a|] == sep;
    DropEmptyPieces([a, b], k);
  }

  /** Conversely, text that splits into exactly two parts is "a,b" followed by a run of
      separators, where neither side holds the separator and the right side is not empty. */
  lemma SplitIntoTwo(s: string, sep: char) returns (a: string, b: string, k: nat)
    requires |Split(s, sep)| == 2
    ensures s == a + [sep] + b + Repeat(sep, k)
    ensures sep !in a && sep !in b && b != []
    ensures Split(s, sep) == [a, b]
  {
    assert sep in s;
    var parts := SplitAll(s, sep);
    assert Split(s, sep) == DropTrailingEmpty(parts);
    a, b, k := parts[0], parts[1], |parts| - 2;
    assert parts == [a, b] + EmptyPieces(k) by {
      forall i | 0 <= i < |parts| ensures parts[i] == ([a, b] + EmptyPieces(k))[i] {
        if i >= 2 {
          assert parts[i] == [];
        }
      }
    }
    JoinTwoPadded(a, b, sep, k);
  }

  /** One piece followed by one or more separators keeps only that piece, or nothing when the
      piece is empty: "a," and "a,," split into [a], and "," into no parts at all. */
  lemma SplitOneWithTrailing(a: string, sep: char, k: nat)
    requires sep !in a && k >= 1
    ensures Split(a + Repeat(sep, k), sep) == if a == [] then [] else [a]
  {
    var s := a + Repeat(sep, k);
    var parts := [a] + EmptyPieces(k);
    JoinEmptyPieces(a, sep, k);
    forall i | 0 <= i < |parts| ensures sep !in parts[i] {
      if i >= 1 {
        assert parts[i] == [];
      }
    }
    SplitAllOfJoin(parts, sep);
    assert s[|a|] == sep;
    if a == [] {
      assert parts == [] + EmptyPieces(k + 1);
      DropEmptyPieces([], k + 1);
    } else {
      DropEmptyPieces([a], k);
    }
  }

  /** Text made only of separators splits into no pieces at all: every piece is empty and
      split drops them all. */
  lemma SplitOfSeparatorsOnly(s: string, sep: char)
    requires s != [] && forall k | 0 <= k < |s| :: s[k] == sep
    ensures Split(s, sep) == []
  {
    assert s == [] + Repeat(sep, |s|);
    SplitOneWithTrailing([], sep, |s|);
  }
}
