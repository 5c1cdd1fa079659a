/**
 * Decimal integer text: Python's `str()` of an integer (used for the element
 * id) and `int()` of a string in base 10 (used for the capacity tag).
 */
module Decimal {
  import opened Wrappers
  import opened Text

  predicate IsDigit(c: char) {
    '0' <= c <= '9'
  }

  predicate AllDigits(s: string) {
    forall i :: 0 <= i < |s| ==> IsDigit(s[i])
  }

  function DigitValue(c: char): nat
    requires IsDigit(c)
  {
    c as int - '0' as int
  }

  /** The digit character for `d`, the inverse of `DigitValue`. */
  function DigitChar(d: nat): (c: char)
    requires d < 10
    ensures IsDigit(c) && DigitValue(c) == d
  {
    ('0' as int + d) as char
  }

  /** The value of a run of decimal digits, most significant first (leading zeros allowed). */
  function DigitsValue(ds: string): nat
    requires AllDigits(ds)
    decreases |ds|
  {
    if ds == [] then 0 else 10 * DigitsValue(ds[..|ds| - 1]) + DigitValue(ds[|ds| - 1])
  }

  /** A digit run as `str()` writes one: non-empty, and a leading zero only in "0" itself. */
  predicate Canonical(ds: string) {
    ds != [] && AllDigits(ds) && (ds[0] == '0' ==> |ds| == 1)
  }

  /** `str(n)` for `n >= 0`: the canonical digits of `n`, which read back as `n`. */
  function ShowNat(n: nat): (s: string)
    ensures Canonical(s) && DigitsValue(s) == n
    ensures s[0] == '0' <==> n == 0
    ensures n == 0 ==> s == "0"
    decreases n
  {
    if n < 10 then [DigitChar(n)]
    else
      var prefix := ShowNat(n / 10);
      var s := prefix + [DigitChar(n % 10)];
      assert s[..|s| - 1] == prefix;
      s
  }

  /** `str(n)`: a minus sign exactly when `n` is negative, then the canonical digits of its magnitude. */
  function ShowInt(n: int): (s: string)
    ensures s != [] && (s[0] == '-' <==> n < 0)
    ensures var magnitude := if n < 0 then s[1..] else s;
      Canonical(magnitude) && DigitsValue(magnitude) == (if n < 0 then -n else n)
  {
    if n < 0 then
      var s := "-" + ShowNat(-n);
      assert s[1..] == ShowNat(-n);
      s
    else ShowNat(n)
  }

  /** A canonical run of two or more digits is worth at least 10, a single digit less. */
  lemma {:induction false} CanonicalMagnitude(ds: string)
    requires Canonical(ds)
    ensures |ds| >= 2 <==> DigitsValue(ds) >= 10
  {
    var init := ds[..|ds| - 1];
    if |ds| >= 2 {
      assert init[0] == ds[0];
      LeadingDigitPositive(init);
    } else {
      assert init == [];
    }
  }

  lemma {:induction false} LeadingDigitPositive(ds: string)
    requires ds != [] && AllDigits(ds) && ds[0] != '0'
    ensures DigitsValue(ds) >= 1
    decreases |ds|
  {
    var init := ds[..|ds| - 1];
    if |ds| == 1 {
      assert init == [];
    } else {
      assert init[0] == ds[0];
      LeadingDigitPositive(init);
    }
  }

  lemma LastDigit(x: nat, d: nat)
    requires d < 10
    ensures (10 * x + d) % 10 == d && (10 * x + d) / 10 == x
  {
  }

  /** Two canonical digit runs with the same value are the same text. */
  lemma {:induction false} CanonicalUnique(a: string, b: string)
    requires Canonical(a) && Canonical(b) && DigitsValue(a) == DigitsValue(b)
    ensures a == b
    decreases |a|
  {
    CanonicalMagnitude(a);
    CanonicalMagnitude(b);
    var ia, ib := a[..|a| - 1], b[..|b| - 1];
    var la, lb := a[|a| - 1], b[|b| - 1];
    LastDigit(DigitsValue(ia), DigitValue(la));
    LastDigit(DigitsValue(ib), DigitValue(lb));
    assert DigitValue(la) == DigitValue(lb);
    assert la == lb;
    assert a == ia + [la] && b == ib + [lb];
    if |a| >= 2 {
      assert ia[0] == a[0] && ib[0] == b[0];
      CanonicalUnique(ia, ib);
    } else {
      assert ia == [] && ib == [];
    }
  }

  /**
   * `str(n)` is the only text that has a minus sign exactly when `n` is
   * negative, followed by canonical digits worth the magnitude of `n`.
   */
  lemma ShowIntUnique(s: string, n: int)
    requires s != [] && (s[0] == '-' <==> n < 0)
    requires var magnitude := if n < 0 then s[1..] else s;
      Canonical(magnitude) && DigitsValue(magnitude) == (if n < 0 then -n else n)
    ensures s == ShowInt(n)
  {
    var t := ShowInt(n);
    if n < 0 {
      CanonicalUnique(s[1..], t[1..]);
      assert s == [s[0]] + s[1..] && t == [t[0]] + t[1..];
    } else {
      CanonicalUnique(s, t);
    }
  }

  /**
   * `int(s)` in base 10: optional surrounding whitespace, an optional `+` or `-`,
   * then one or more ASCII digits and nothing else. `None` is the `ValueError`.
   */
  function ParseInt(s: string): Option<int> {
    ParseSigned(Strip(s))
  }

  /** What `int()` does once the whitespace is gone: an optional sign, then one or more digits. */
  function ParseSigned(t: string): Option<int> {
    var digits := if |t| > 0 && (t[0] == '-' || t[0] == '+') then t[1..] else t;
    if digits == [] || !AllDigits(digits) then None
    else if t[0] == '-' then Some(-(DigitsValue(digits) as int))
    else Some(DigitsValue(digits))
  }

  /** The decimal text of an integer starts and ends with a non-blank character. */
  lemma ShowIntEnds(n: int)
    ensures ShowInt(n) != [] && !IsSpace(ShowInt(n)[0]) && !IsSpace(ShowInt(n)[|ShowInt(n)| - 1])
  {
    var body := ShowInt(n);
    var digits := ShowNat(if n < 0 then -n else n);
    assert IsDigit(digits[0]) && IsDigit(digits[|digits| - 1]);
    if n < 0 {
      assert body[0] == '-' && body[|body| - 1] == digits[|digits| - 1];
    }
  }

  /** Whatever surrounds it, text that strips down to the decimal text of `n` reads as `n`. */
  lemma ParseOfStripped(s: string, n: int)
    requires Strip(s) == ShowInt(n)
    ensures ParseInt(s) == Some(n)
  {
    ParseSignedShowInt(n);
  }

  /** The sign-and-digits step reads back the decimal text of any integer. */
  lemma ParseSignedShowInt(n: int)
    ensures ParseSigned(ShowInt(n)) == Some(n)
  {
    if n < 0 {
      ParseOfSignedDigits("-", ShowNat(-n));
    } else {
      var ds := ShowNat(n);
      assert "" + ds == ds;
      ParseOfSignedDigits("", ds);
    }
  }

  /** `int()` reads back what `str()` writes, whatever whitespace surrounds it. */
  lemma ParsePaddedShowInt(pre: string, n: int, post: string)
    requires AllSpace(pre) && AllSpace(post)
    ensures ParseInt(pre + ShowInt(n) + post) == Some(n)
  {
    ShowIntEnds(n);
    StripPadded(pre, ShowInt(n), post);
    ParseOfStripped(pre + ShowInt(n) + post, n);
  }

  lemma ParseShowInt(n: int)
    ensures ParseInt(ShowInt(n)) == Some(n)
  {
    var body, none := ShowInt(n), [];
    ShowIntEnds(n);
    StripPadded(none, body, none);
    assert none + body + none == body;
    ParseOfStripped(body, n);
  }

  predicate IsSign(sign: string) {
    sign == "" || sign == "+" || sign == "-"
  }

  /** The integer that an optional sign and a digit run stand for. */
  function SignedValue(sign: string, ds: string): int
    requires AllDigits(ds)
  {
    if sign == "-" then -(DigitsValue(ds) as int) else DigitsValue(ds)
  }

  /** Whitespace, an optional sign, one or more digits, whitespace: the parts of an integer literal. */
  predicate LiteralParts(pre: string, sign: string, ds: string, post: string) {
    AllSpace(pre) && IsSign(sign) && ds != [] && AllDigits(ds) && AllSpace(post)
  }

  /** `s` is an integer literal, possibly padded, that stands for `n`. */
  ghost predicate IsLiteralOf(s: string, n: int) {
    exists pre, sign, ds, post ::
      LiteralParts(pre, sign, ds, post) && s == pre + sign + ds + post && n == SignedValue(sign, ds)
  }

  /** An optional sign followed by digits starts and ends with a character that is not whitespace. */
  lemma SignedDigitsEnds(sign: string, ds: string)
    requires IsSign(sign) && ds != [] && AllDigits(ds)
    ensures var body := sign + ds; body != [] && !IsSpace(body[0]) && !IsSpace(body[|body| - 1])
  {
    var body := sign + ds;
    assert body[|body| - 1] == ds[|ds| - 1];
    assert body[0] == (if sign == [] then ds[0] else sign[0]);
  }

  /** An optional sign followed by digits reads as their value. */
  lemma ParseOfSignedDigits(sign: string, ds: string)
    requires IsSign(sign) && ds != [] && AllDigits(ds)
    ensures ParseSigned(sign + ds) == Some(SignedValue(sign, ds))
  {
    var t := sign + ds;
    if sign == [] {
      assert t == ds;
      assert IsDigit(t[0]);
    } else {
      assert t[0] == sign[0] && t[1..] == ds;
    }
  }

  /** A literal assembled from its parts reads as the value of its sign and digits. */
  lemma ParseOfLiteral(pre: string, sign: string, ds: string, post: string)
    requires LiteralParts(pre, sign, ds, post)
    ensures ParseInt(pre + sign + ds + post) == Some(SignedValue(sign, ds))
  {
    SignedDigitsEnds(sign, ds);
    StripPadded(pre, sign + ds, post);
    Regroup(pre, sign, ds, post);
    ParseOfSignedDigits(sign, ds);
  }

  /** Whatever the sign-and-digits step accepts is an optional sign followed by digits worth the result. */
  lemma SplitSign(t: string, n: int) returns (sign: string, ds: string)
    requires ParseSigned(t) == Some(n)
    ensures IsSign(sign) && ds != [] && AllDigits(ds)
    ensures t == sign + ds && n == SignedValue(sign, ds)
  {
    sign := if t[0] == '-' || t[0] == '+' then t[..1] else [];
    ds := t[|sign|..];
    assert t == sign + ds;
  }

  /** Text that strips down to an optional sign and digits is a literal of their value. */
  lemma StrippedIsLiteral(s: string, sign: string, ds: string)
    requires IsSign(sign) && ds != [] && AllDigits(ds) && Strip(s) == sign + ds
    ensures IsLiteralOf(s, SignedValue(sign, ds))
  {
    var i := StripSplit(s);
    var pre, post := s[..i], s[i + |Strip(s)|..];
    SplitAround(s, Strip(s), i);
    Regroup(pre, sign, ds, post);
    assert LiteralParts(pre, sign, ds, post);
  }

  /** Whatever `int()` accepts splits into the parts of a literal of the value it returns. */
  lemma ParsedIsLiteral(s: string, n: int)
    requires ParseInt(s) == Some(n)
    ensures IsLiteralOf(s, n)
  {
    var sign, ds := SplitSign(Strip(s), n);
    StrippedIsLiteral(s, sign, ds);
  }

  /**
   * `int(s)` returns `n` exactly when `s` is whitespace, an optional sign, one
   * or more digits (leading zeros allowed) and whitespace, standing for `n`;
   * on every other text it raises.
   */
  lemma ParseIntIff(s: string, n: int)
    ensures ParseInt(s) == Some(n) <==> IsLiteralOf(s, n)
  {
    if ParseInt(s) == Some(n) {
      ParsedIsLiteral(s, n);
    }
    if IsLiteralOf(s, n) {
      var pre, sign, ds, post :| LiteralParts(pre, sign, ds, post) && s == pre + sign + ds + post && n == SignedValue(sign, ds);
      ParseOfLiteral(pre, sign, ds, post);
    }
  }

  /** A character that is neither a digit, a sign nor whitespace makes `int()` fail. */
  lemma {:induction false} ParseRejectsForeignChar(s: string, i: nat)
    requires i < |s|
    requires !IsDigit(s[i]) && !IsSpace(s[i]) && s[i] != '+' && s[i] != '-'
    ensures ParseInt(s) == None
  {
    var left := StripLeft(s);
    var a := |s| - |left|;
    assert a <= i;
    assert left[i - a] == s[i];
    var t := StripRight(left);
    assert i - a < |t|;
    assert t[i - a] == s[i];
    if |t| > 0 && (t[0] == '-' || t[0] == '+') {
      assert i - a > 0;
      assert t[1..][i - a - 1] == s[i];
    }
  }

  /** Whitespace alone is not an integer. */
  lemma ParseRejectsBlank(s: string)
    requires AllSpace(s)
    ensures ParseInt(s) == None
  {
    assert StripLeft(s) == [];
  }
}
