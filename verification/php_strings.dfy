/** The slice of PHP's string built-ins the updater relies on: explode,
    implode, trim, empty() on strings, the (int) cast of a string and the
    decimal text of an int. Strings are byte strings in PHP; here they are
    `seq<char>` and only ASCII characters play a role. */
module PhpStrings {

  // ---------------------------------------------------------------- explode / implode

  /** explode($sep, $s): the pieces of `s` between occurrences of `sep`.
      Never empty: explode on `""` gives `[""]`. */
  function Explode(sep: char, s: string): (parts: seq<string>)
    ensures |parts| >= 1
  {
    if |s| == 0 then [""]
    else
      var rest := Explode(sep, s[1..]);
      if s[0] == sep then [""] + rest
      else [[s[0]] + rest[0]] + rest[1..]
  }

  /** No piece of a split holds the separator. */
  lemma {:induction false} ExplodeSeparatorFree(sep: char, s: string)
    ensures forall i :: 0 <= i < |Explode(sep, s)| ==> sep !in Explode(sep, s)[i]
  {
    if |s| > 0 {
      ExplodeSeparatorFree(sep, s[1..]);
    }
  }

  /** implode($sep, $parts): the parts joined with `sep` between neighbours. */
  function Implode(sep: char, parts: seq<string>): string
  {
    if |parts| == 0 then ""
    else if |parts| == 1 then parts[0]
    else parts[0] + [sep] + Implode(sep, parts[1..])
  }

  /** Joining the pieces of a split gives the original text back. */
  lemma {:induction false} ImplodeExplode(sep: char, s: string)
    ensures Implode(sep, Explode(sep, s)) == s
  {
    if |s| > 0 {
      var rest := Explode(sep, s[1..]);
      ImplodeExplode(sep, s[1..]);
      if s[0] == sep {
        assert Implode(sep, [""] + rest) == "" + [sep] + Implode(sep, rest);
        assert s == [s[0]] + s[1..];
      } else if |rest| == 1 {
        assert s == [s[0]] + s[1..];
      } else {
        var parts := [[s[0]] + rest[0]] + rest[1..];
        assert parts[1..] == rest[1..];
        assert Implode(sep, rest) == rest[0] + [sep] + Implode(sep, rest[1..]);
        assert s == [s[0]] + s[1..];
      }
    }
  }

  /** A piece without separators splits into itself. */
  lemma {:induction false} ExplodePlain(sep: char, x: string)
    requires sep !in x
    ensures Explode(sep, x) == [x]
  {
    if |x| > 0 {
      ExplodePlain(sep, x[1..]);
      assert x == [x[0]] + x[1..];
    }
  }

  /** Splitting `x sep y` peels `x` off as the first piece. */
  lemma {:induction false} ExplodeCons(sep: char, x: string, y: string)
    requires sep !in x
    ensures Explode(sep, x + [sep] + y) == [x] + Explode(sep, y)
  {
    if |x| == 0 {
      assert x + [sep] + y == [sep] + y;
      assert ([sep] + y)[1..] == y;
    } else {
      ExplodeCons(sep, x[1..], y);
      assert (x + [sep] + y)[1..] == x[1..] + [sep] + y;
      assert [x[0]] + x[1..] == x;
    }
  }

  /** Splitting a join of separator-free pieces gives the pieces back. */
  lemma {:induction false} ExplodeImplode(sep: char, parts: seq<string>)
    requires |parts| >= 1
    requires forall i :: 0 <= i < |parts| ==> sep !in parts[i]
    ensures Explode(sep, Implode(sep, parts)) == parts
  {
    if |parts| == 1 {
      ExplodePlain(sep, parts[0]);
    } else {
      ExplodeImplode(sep, parts[1..]);
      ExplodeCons(sep, parts[0], Implode(sep, parts[1..]));
      assert [parts[0]] + parts[1..] == parts;
    }
  }

  // ---------------------------------------------------------------- trim

  /** The characters PHP's trim() strips by default: space, tab, line feed,
      carriage return, NUL and vertical tab. */
  predicate IsTrimChar(c: char) {
    c == ' ' || c == '\t' || c == '\n' || c == '\r' || c == '\0' || c == '\U{B}'
  }

  /** ltrim($s): drops the leading run of trim characters. */
  function TrimLeft(s: string): string {
    if |s| > 0 && IsTrimChar(s[0]) then TrimLeft(s[1..]) else s
  }

  /** rtrim($s): drops the trailing run of trim characters. */
  function TrimRight(s: string): string {
    if |s| > 0 && IsTrimChar(s[|s| - 1]) then TrimRight(s[..|s| - 1]) else s
  }

  /** trim($s): the text between the leading and trailing runs of trim characters. */
  function Trim(s: string): string {
    TrimLeft(TrimRight(s))
  }

  /** ltrim keeps a suffix, drops trim characters only, and stops at the
      first character that is not one. */
  lemma {:induction false} TrimLeftSpec(s: string)
    ensures var r := TrimLeft(s);
      && |r| <= |s| && r == s[|s| - |r|..]
      && (forall k :: 0 <= k < |s| - |r| ==> IsTrimChar(s[k]))
      && (|r| > 0 ==> !IsTrimChar(r[0]))
  {
    if |s| > 0 && IsTrimChar(s[0]) {
      TrimLeftSpec(s[1..]);
    }
  }

  /** rtrim keeps a prefix, drops trim characters only, and stops at the
      last character that is not one. */
  lemma {:induction false} TrimRightSpec(s: string)
    ensures var r := TrimRight(s);
      && |r| <= |s| && r == s[..|r|]
      && (forall k :: |r| <= k < |s| ==> IsTrimChar(s[k]))
      && (|r| > 0 ==> !IsTrimChar(r[|r| - 1]))
  {
    if |s| > 0 && IsTrimChar(s[|s| - 1]) {
      TrimRightSpec(s[..|s| - 1]);
    }
  }

  /** trim() strips exactly one line end written after text that has no padding. */
  lemma TrimLineEnd(t: string)
    requires |t| > 0 && !IsTrimChar(t[0]) && !IsTrimChar(t[|t| - 1])
    ensures Trim(t + "\n") == t
  {
    assert (t + "\n")[..|t|] == t;
    assert TrimRight(t + "\n") == TrimRight(t);
    assert TrimRight(t) == t;
  }

  // ---------------------------------------------------------------- empty()

  /** empty($s) for a string: true for `""` and, PHP being PHP, for `"0"`. */
  predicate PhpEmpty(s: string) {
    s == "" || s == "0"
  }

  // ---------------------------------------------------------------- digits

  predicate IsDigit(c: char) {
    '0' <= c <= '9'
  }

  predicate AllDigits(s: string) {
    forall i :: 0 <= i < |s| ==> IsDigit(s[i])
  }

  function DigitValue(c: char): (d: nat)
    requires IsDigit(c)
    ensures d < 10
  {
    c as int - '0' as int
  }

  function DigitChar(d: nat): (c: char)
    requires d < 10
    ensures IsDigit(c) && DigitValue(c) == d
  {
    ('0' as int + d) as char
  }

  /** The run of decimal digits at the front of `s`, read most significant
      first onto the value `acc` already read; reading stops at the first
      character that is not a digit. */
  function ReadDigits(s: string, acc: nat): nat {
    if |s| > 0 && IsDigit(s[0]) then ReadDigits(s[1..], acc * 10 + DigitValue(s[0])) else acc
  }

  /** Reading stops where the digit run ends: what follows it is ignored. */
  lemma {:induction false} ReadDigitsStops(d: string, t: string, acc: nat)
    requires AllDigits(d)
    requires |t| == 0 || !IsDigit(t[0])
    ensures ReadDigits(d + t, acc) == ReadDigits(d, acc)
  {
    if |d| == 0 {
      assert d + t == t;
    } else {
      ReadDigitsStops(d[1..], t, acc * 10 + DigitValue(d[0]));
      assert (d + t)[1..] == d[1..] + t;
    }
  }

  /** One more digit at the end of a run shifts the value one decimal place. */
  lemma {:induction false} ReadDigitsSnoc(d: string, c: char, acc: nat)
    requires AllDigits(d) && IsDigit(c)
    ensures ReadDigits(d + [c], acc) == ReadDigits(d, acc) * 10 + DigitValue(c)
  {
    if |d| == 0 {
      assert d + [c] == [c];
    } else {
      ReadDigitsSnoc(d[1..], c, acc * 10 + DigitValue(d[0]));
      assert (d + [c])[1..] == d[1..] + [c];
    }
  }

  /** The decimal text of a natural number, without leading zeros. */
  function NatToString(n: nat): string {
    if n < 10 then [DigitChar(n)] else NatToString(n / 10) + [DigitChar(n % 10)]
  }

  /** The decimal text is a non-empty digit run that reads back as the
      number and starts with `0` only for zero. */
  lemma {:induction false} NatToStringSpec(n: nat)
    ensures var s := NatToString(n);
      && |s| > 0 && AllDigits(s)
      && ReadDigits(s, 0) == n
      && (s[0] == '0' ==> n == 0)
  {
    if n >= 10 {
      var prefix := NatToString(n / 10);
      NatToStringSpec(n / 10);
      ReadDigitsSnoc(prefix, DigitChar(n % 10), 0);
      assert NatToString(n)[0] == prefix[0];
    }
  }

  /** PHP's conversion of an int to a string (what implode() writes): decimal,
      with a leading `-` for negative values. */
  function IntToString(n: int): string {
    if n < 0 then "-" + NatToString(-n) else NatToString(n)
  }

  /** The text of an int ends in a digit, starts with `-` exactly when the
      int is negative (with a digit otherwise), and holds no dot, so it is
      one piece of a dotted version text. */
  lemma IntToStringSpec(n: int)
    ensures var s := IntToString(n);
      && |s| > 0 && IsDigit(s[|s| - 1])
      && (s[0] == '-' <==> n < 0)
      && (n >= 0 ==> IsDigit(s[0]))
      && '.' !in s
  {
    var s := IntToString(n);
    if n < 0 {
      NatToStringSpec(-n);
      assert s[1..] == NatToString(-n);
      assert forall i :: 1 <= i < |s| ==> IsDigit(s[i]);
    } else {
      NatToStringSpec(n);
    }
  }

  // ---------------------------------------------------------------- (int) cast

  /** The blanks PHP skips before a numeric string: space, tab, line feed,
      carriage return, vertical tab and form feed. */
  predicate IsNumericSpace(c: char) {
    c == ' ' || c == '\t' || c == '\n' || c == '\r' || c == '\U{B}' || c == '\U{C}'
  }

  function SkipNumericSpace(s: string): string {
    if |s| > 0 && IsNumericSpace(s[0]) then SkipNumericSpace(s[1..]) else s
  }

  /** The skip keeps a suffix, drops blanks only, and stops at the first
      character that is not one. */
  lemma {:induction false} SkipNumericSpaceSpec(s: string)
    ensures var r := SkipNumericSpace(s);
      && |r| <= |s| && r == s[|s| - |r|..]
      && (forall k :: 0 <= k < |s| - |r| ==> IsNumericSpace(s[k]))
      && (|r| > 0 ==> !IsNumericSpace(r[0]))
  {
    if |s| > 0 && IsNumericSpace(s[0]) {
      SkipNumericSpaceSpec(s[1..]);
    }
  }

  /** PHP's `(int)$s` on a string: leading blanks, an optional sign and the
      leading run of digits; anything else reads as 0. */
  function IntCast(s: string): int
  {
    var t := SkipNumericSpace(s);
    if |t| > 0 && t[0] == '-' then -(ReadDigits(t[1..], 0) as int)
    else if |t| > 0 && t[0] == '+' then ReadDigits(t[1..], 0)
    else ReadDigits(t, 0)
  }

  /** The cast reads the value of the digit run a string starts with and
      ignores whatever follows the run. */
  lemma IntCastReadsDigitRun(d: string, t: string)
    requires |d| > 0 && AllDigits(d)
    requires |t| == 0 || !IsDigit(t[0])
    ensures IntCast(d + t) == ReadDigits(d, 0)
  {
    ReadDigitsStops(d, t, 0);
    var u := d + t;
    assert u[0] == d[0] && !IsNumericSpace(u[0]);
    assert SkipNumericSpace(u) == u;
  }

  /** A `-` in front negates what the cast reads after it. */
  lemma IntCastMinus(u: string)
    ensures IntCast(['-'] + u) == -(ReadDigits(u, 0) as int)
  {
    var v := ['-'] + u;
    assert SkipNumericSpace(v) == v;
    assert v[1..] == u;
  }

  /** After a `-` the cast reads the negated value of the digit run. */
  lemma IntCastReadsNegatedDigitRun(d: string, t: string)
    requires |d| > 0 && AllDigits(d)
    requires |t| == 0 || !IsDigit(t[0])
    ensures IntCast("-" + d + t) == -(ReadDigits(d, 0) as int)
  {
    ReadDigitsStops(d, t, 0);
    IntCastMinus(d + t);
    assert "-" + d + t == ['-'] + (d + t);
  }

  /** A string that does not start with a blank, a sign or a digit casts to 0. */
  lemma IntCastNonNumeric(s: string)
    requires |s| == 0 || (!IsNumericSpace(s[0]) && !IsDigit(s[0]) && s[0] != '-' && s[0] != '+')
    ensures IntCast(s) == 0
  {
  }

  /** Casting the decimal text of an int gives the int back. */
  lemma IntCastIntToString(n: int)
    ensures IntCast(IntToString(n)) == n
  {
    if n < 0 {
      NatToStringSpec(-n);
      IntCastReadsNegatedDigitRun(NatToString(-n), "");
      assert "-" + NatToString(-n) + "" == IntToString(n);
    } else {
      NatToStringSpec(n);
      IntCastReadsDigitRun(NatToString(n), "");
      assert NatToString(n) + "" == IntToString(n);
    }
  }
}
