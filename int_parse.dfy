/**
  Python's `int(s)` on a string, as far as the traffic statistics use it:
  surrounding ASCII whitespace is ignored, an optional `+` or `-` sign may
  come first, and the rest is a non-empty run of ASCII decimal digits in
  which single underscores may separate digits. Anything else is the
  `ValueError` case, modelled as `None`.
*/
module IntParse {
  import opened Wrappers

  /** The ASCII characters Python treats as whitespace around a number. */
  predicate IsSpace(c: char) {
    c == ' ' || c == '\t' || c == '\n' || c == '\r' || c == '\U{0B}' || c == '\U{0C}'
  }

  predicate IsDigit(c: char) {
    '0' <= c <= '9'
  }

  function DigitValue(c: char): (d: nat)
    requires IsDigit(c)
    ensures d < 10
  {
    (c as int) - ('0' as int)
  }

  function DigitChar(d: nat): (c: char)
    requires d < 10
    ensures IsDigit(c) && DigitValue(c) == d
  {
    ('0' as int + d) as char
  }

  predicate AllDigits(s: string) {
    forall i :: 0 <= i < |s| ==> IsDigit(s[i])
  }

  /** Drops the leading whitespace. */
  function StripLeading(s: string): string {
    if |s| > 0 && IsSpace(s[0]) then StripLeading(s[1..]) else s
  }

  /** Drops the trailing whitespace. */
  function StripTrailing(s: string): string {
    if |s| > 0 && IsSpace(s[|s| - 1]) then StripTrailing(s[..|s| - 1]) else s
  }

  function Strip(s: string): string {
    StripTrailing(StripLeading(s))
  }

  /** What is left after dropping leading whitespace is a suffix of `s` that does not start with whitespace, and all that was dropped is whitespace. */
  lemma {:induction false} StripLeadingShape(s: string)
    ensures var t := StripLeading(s);
      && |t| <= |s| && t == s[|s| - |t|..]
      && (t == [] || !IsSpace(t[0]))
      && forall i :: 0 <= i < |s| - |t| ==> IsSpace(s[i])
  {
    if |s| > 0 && IsSpace(s[0]) {
      StripLeadingShape(s[1..]);
    }
  }

  /** What is left after dropping trailing whitespace is a prefix of `s` that does not end with whitespace, and all that was dropped is whitespace. */
  lemma {:induction false} StripTrailingShape(s: string)
    ensures var t := StripTrailing(s);
      && |t| <= |s| && t == s[..|t|]
      && (t == [] || !IsSpace(t[|t| - 1]))
      && forall i :: |t| <= i < |s| ==> IsSpace(s[i])
  {
    if |s| > 0 && IsSpace(s[|s| - 1]) {
      StripTrailingShape(s[..|s| - 1]);
    }
  }

  /** Python's decimal digit grammar: digits, with single underscores only between two digits. */
  predicate IsDigitString(s: string) {
    && |s| > 0
    && IsDigit(s[0])
    && IsDigit(s[|s| - 1])
    && (forall i :: 0 <= i < |s| ==> IsDigit(s[i]) || s[i] == '_')
    && (forall i :: 0 <= i < |s| - 1 && s[i] == '_' ==> s[i + 1] != '_')
  }

  /** The digits of `s` with the separating underscores removed. */
  function WithoutUnderscores(s: string): (t: string)
    requires forall i :: 0 <= i < |s| ==> IsDigit(s[i]) || s[i] == '_'
    ensures AllDigits(t)
  {
    if s == [] then []
    else if s[0] == '_' then WithoutUnderscores(s[1..])
    else [s[0]] + WithoutUnderscores(s[1..])
  }

  lemma {:induction false} WithoutUnderscoresOfDigits(s: string)
    requires AllDigits(s)
    ensures WithoutUnderscores(s) == s
  {
    if s != [] {
      WithoutUnderscoresOfDigits(s[1..]);
    }
  }

  /** The value of a string of decimal digits, most significant first. */
  function DigitsValue(s: string): nat
    requires AllDigits(s)
  {
    if s == [] then 0 else DigitsValue(s[..|s| - 1]) * 10 + DigitValue(s[|s| - 1])
  }

  /** The stripped numeral starts with `+` or `-`. */
  predicate HasSign(t: string) {
    |t| > 0 && (t[0] == '+' || t[0] == '-')
  }

  /** `int(s)`: `Some(value)` when Python accepts `s`, `None` where it raises `ValueError`. */
  function ParseInt(s: string): Option<int> {
    var t := Strip(s);
    var digits := if HasSign(t) then t[1..] else t;
    if !IsDigitString(digits) then None
    else
      var n: int := DigitsValue(WithoutUnderscores(digits));
      Some(if HasSign(t) && t[0] == '-' then -n else n)
  }

  /** Python's `str(n)` for a natural number: its decimal digits without leading zeros. */
  function NatToString(n: nat): (s: string)
    ensures |s| > 0 && AllDigits(s)
  {
    if n < 10 then [DigitChar(n)] else NatToString(n / 10) + [DigitChar(n % 10)]
  }

  /** Python's `str(n)` for any integer. */
  function IntToString(n: int): string {
    if n < 0 then "-" + NatToString(-n) else NatToString(n)
  }

  lemma {:induction false} DigitsValueOfNatToString(n: nat)
    ensures DigitsValue(NatToString(n)) == n
  {
    var s := NatToString(n);
    if n >= 10 {
      DigitsValueOfNatToString(n / 10);
      assert s[..|s| - 1] == NatToString(n / 10);
    }
  }

  lemma StripKeepsTrimmed(s: string)
    requires |s| > 0 && !IsSpace(s[0]) && !IsSpace(s[|s| - 1])
    ensures Strip(s) == s
  {
  }

  /** Reading back what `str` writes gives the number back: `int(str(n)) == n`. */
  lemma ParseIntRoundTrip(n: int)
    ensures ParseInt(IntToString(n)) == Some(n)
  {
    var s := IntToString(n);
    var m: nat := if n < 0 then -n else n;
    var digits := NatToString(m);
    StripKeepsTrimmed(s);
    DigitsValueOfNatToString(m);
    WithoutUnderscoresOfDigits(digits);
    if n < 0 {
      assert s[1..] == digits;
    } else {
      assert !HasSign(s);
    }
  }

  /** Surrounding whitespace never changes what `int` reads. */
  lemma ParseIntIgnoresSurroundingSpace(s: string, pre: string, post: string)
    requires forall i :: 0 <= i < |pre| ==> IsSpace(pre[i])
    requires forall i :: 0 <= i < |post| ==> IsSpace(post[i])
    ensures ParseInt(pre + s + post) == ParseInt(s)
  {
    StripOfPadded(s, pre, post);
  }

  lemma {:induction false} StripOfPadded(s: string, pre: string, post: string)
    requires forall i :: 0 <= i < |pre| ==> IsSpace(pre[i])
    requires forall i :: 0 <= i < |post| ==> IsSpace(post[i])
    ensures Strip(pre + s + post) == Strip(s)
  {
    StripLeadingPadded(s + post, pre);
    assert pre + s + post == pre + (s + post);
    StripTrailingPadded(StripLeading(s + post), post);
    StripLeadingOfTail(s, post);
  }

  lemma {:induction false} StripLeadingPadded(s: string, pre: string)
    requires forall i :: 0 <= i < |pre| ==> IsSpace(pre[i])
    ensures StripLeading(pre + s) == StripLeading(s)
  {
    if pre != [] {
      assert IsSpace(pre[0]) && (pre + s)[0] == pre[0] && (pre + s)[1..] == pre[1..] + s;
      StripLeadingPadded(s, pre[1..]);
    } else {
      assert pre + s == s;
    }
  }

  lemma {:induction false} StripTrailingPadded(s: string, post: string)
    requires forall i :: 0 <= i < |post| ==> IsSpace(post[i])
    ensures StripTrailing(s + post) == StripTrailing(s)
  {
    if post != [] {
      var p := post[..|post| - 1];
      assert IsSpace(post[|post| - 1]) && (s + post)[|s + post| - 1] == post[|post| - 1];
      assert (s + post)[..|s + post| - 1] == s + p;
      StripTrailingPadded(s, p);
    } else {
      assert s + post == s;
    }
  }

  /** Stripping the front of `s + post` then the back equals stripping `s` alone, once `post` is blank. */
  lemma StripLeadingOfTail(s: string, post: string)
    requires forall i :: 0 <= i < |post| ==> IsSpace(post[i])
    ensures StripTrailing(StripLeading(s + post)) == StripTrailing(StripLeading(s))
  {
    var t := StripLeading(s);
    if t == [] {
      // `s` is all whitespace, so is `s + post`, and both strip to nothing.
      StripLeadingShape(s);
      assert forall i :: 0 <= i < |s + post| ==> IsSpace((s + post)[i]);
      AllSpaceStripsToEmpty(s + post);
    } else {
      StripLeadingAppend(s, post);
      StripTrailingPadded(t, post);
    }
  }

  lemma {:induction false} AllSpaceStripsToEmpty(s: string)
    requires forall i :: 0 <= i < |s| ==> IsSpace(s[i])
    ensures StripLeading(s) == []
  {
    if s != [] {
      AllSpaceStripsToEmpty(s[1..]);
    }
  }

  lemma {:induction false} StripLeadingAppend(s: string, post: string)
    requires StripLeading(s) != []
    ensures StripLeading(s + post) == StripLeading(s) + post
  {
    if |s| > 0 && IsSpace(s[0]) {
      assert (s + post)[1..] == s[1..] + post;
      StripLeadingAppend(s[1..], post);
    }
  }

  /**
    A character that is neither whitespace, a digit, an underscore nor a
    sign makes `int` fail wherever it stands, as `int("abc")` does.
  */
  lemma ParseIntRejectsForeignChar(s: string, i: nat)
    requires i < |s|
    requires !IsSpace(s[i]) && !IsDigit(s[i]) && s[i] != '_' && s[i] != '+' && s[i] != '-'
    ensures ParseInt(s) == None
  {
    var l := StripLeading(s);
    StripLeadingShape(s);
    StripTrailingShape(l);
    var a := |s| - |l|;
    assert i >= a;
    var t := StripTrailing(l);
    assert i - a < |t|;
    assert t[i - a] == s[i];
    var digits := if HasSign(t) then t[1..] else t;
    if HasSign(t) {
      assert digits[i - a - 1] == s[i];
    } else {
      assert digits[i - a] == s[i];
    }
  }
}
