/**
 The JavaScript string built-ins the candidate filter relies on:
 `String.prototype.trim`, `String.prototype.toLowerCase` (ASCII letters only),
 `String.prototype.includes` and the `Number(...)` conversion (integer literals only).
 */
module Text {

  /** White space and line terminators as ECMAScript defines them; `trim` strips exactly these. */
  predicate IsWhitespace(c: char) {
    c == '\t' || c == '\n' || c == '\U{000B}' || c == '\U{000C}' || c == '\r' || c == ' '
    || c == '\U{00A0}' || c == '\U{1680}' || ('\U{2000}' <= c <= '\U{200A}')
    || c == '\U{2028}' || c == '\U{2029}' || c == '\U{202F}' || c == '\U{205F}'
    || c == '\U{3000}' || c == '\U{FEFF}'
  }

  /** Every character of `s` is white space (vacuously so for the empty string). */
  predicate IsBlank(s: string) {
    forall i :: 0 <= i < |s| ==> IsWhitespace(s[i])
  }

  /** `s` with its leading white space removed. */
  function TrimStart(s: string): (r: string)
    ensures |r| <= |s| && r == s[|s| - |r|..]
    ensures IsBlank(s[..|s| - |r|])
    ensures r == [] || !IsWhitespace(r[0])
  {
    if s != [] && IsWhitespace(s[0]) then
      var r := TrimStart(s[1..]);
      var k := |s| - |r|;
      assert s[1..][k - 1..] == s[k..];
      assert forall i :: 1 <= i < k ==> s[..k][i] == s[1..][..k - 1][i - 1];
      r
    else
      s
  }

  /** `s` with its trailing white space removed. */
  function TrimEnd(s: string): (r: string)
    ensures |r| <= |s| && r == s[..|r|]
    ensures IsBlank(s[|r|..])
    ensures r == [] || !IsWhitespace(r[|r| - 1])
  {
    if s != [] && IsWhitespace(s[|s| - 1]) then
      var r := TrimEnd(s[..|s| - 1]);
      assert s[..|s| - 1][..|r|] == s[..|r|];
      assert forall j :: 0 <= j < |s| - 1 - |r| ==> s[|r|..][j] == s[..|s| - 1][|r|..][j];
      r
    else
      s
  }

  /** `s.trim()`: `s` without its leading and its trailing white space. */
  function Trim(s: string): (r: string)
    ensures |r| <= |s|
    ensures r == [] || (!IsWhitespace(r[0]) && !IsWhitespace(r[|r| - 1]))
  {
    TrimEnd(TrimStart(s))
  }

  /** `r` sits in `s` at offset `i` with nothing but white space on either side. */
  ghost predicate PaddedAt(s: string, r: string, i: int) {
    0 <= i && i + |r| <= |s| && s[i..i + |r|] == r && IsBlank(s[..i]) && IsBlank(s[i + |r|..])
  }

  /** Trimming removes white space only: the result is the slice of `s` that it pads. */
  lemma TrimIsSlice(s: string)
    ensures PaddedAt(s, Trim(s), |s| - |TrimStart(s)|)
  {
    var t := TrimStart(s);
    var r := TrimEnd(t);
    var i := |s| - |t|;
    assert Trim(s) == r;
    assert IsBlank(s[..i]);
    assert s[i..] == t;
    SliceOfSuffix(s, i, |r|);
    assert s[i..i + |r|] == r;
    assert s[i + |r|..] == t[|r|..];
    assert IsBlank(s[i + |r|..]);
    assert PaddedAt(s, r, i);
  }

  /** Slicing a suffix of `s` slices `s` itself. */
  lemma SliceOfSuffix(s: string, i: nat, n: nat)
    requires i + n <= |s|
    ensures s[i..][..n] == s[i..i + n] && s[i..][n..] == s[i + n..]
  {
  }

  /** The trimmed string is empty exactly when the string is blank. */
  lemma TrimEmptyIff(s: string)
    ensures Trim(s) == [] <==> IsBlank(s)
  {
    var t := TrimStart(s);
    var r := TrimEnd(t);
    var i := |s| - |t|;
    if r == [] {
      assert t[|r|..] == t;
      assert t == [];
      assert s[..i] == s;
    } else {
      assert s[i] == r[0];
    }
  }

  /** A string without white space at either end is its own trimmed form. */
  lemma TrimUnpadded(s: string)
    requires s != [] && !IsWhitespace(s[0]) && !IsWhitespace(s[|s| - 1])
    ensures Trim(s) == s
  {
    assert TrimStart(s) == s;
  }

  /** Leading white space in front of a string that does not start with white space is all `TrimStart` removes. */
  lemma {:induction false} TrimStartPadded(pre: string, s: string)
    requires IsBlank(pre) && (s == [] || !IsWhitespace(s[0]))
    ensures TrimStart(pre + s) == s
    decreases |pre|
  {
    if pre == [] {
      assert pre + s == s;
    } else {
      assert (pre + s)[0] == pre[0];
      assert (pre + s)[1..] == pre[1..] + s;
      TrimStartPadded(pre[1..], s);
    }
  }

  /** Trailing white space behind a string that does not end in white space is all `TrimEnd` removes. */
  lemma {:induction false} TrimEndPadded(s: string, post: string)
    requires IsBlank(post) && (s == [] || !IsWhitespace(s[|s| - 1]))
    ensures TrimEnd(s + post) == s
    decreases |post|
  {
    if post == [] {
      assert s + post == s;
    } else {
      var n := |post|;
      assert (s + post)[|s| + n - 1] == post[n - 1];
      assert (s + post)[..|s| + n - 1] == s + post[..n - 1];
      TrimEndPadded(s, post[..n - 1]);
    }
  }

  /** Trimming strips exactly the white space padding on either side of an unpadded string. */
  lemma TrimPadded(pre: string, s: string, post: string)
    requires IsBlank(pre) && IsBlank(post)
    requires s == [] || (!IsWhitespace(s[0]) && !IsWhitespace(s[|s| - 1]))
    ensures Trim(pre + s + post) == s
  {
    if s == [] {
      assert pre + s + post == pre + post;
      TrimEmptyIff(pre + post);
    } else {
      assert pre + s + post == pre + (s + post);
      assert (s + post)[0] == s[0];
      TrimStartPadded(pre, s + post);
      TrimEndPadded(s, post);
    }
  }

  /** The ASCII lower-case form of `c`; every other character is left as it is. */
  function LowerChar(c: char): (r: char)
    ensures !('A' <= r <= 'Z')
    ensures 'A' <= c <= 'Z' ==> r as int == c as int + 32
    ensures !('A' <= c <= 'Z') ==> r == c
  {
    if 'A' <= c <= 'Z' then (c as int - 'A' as int + 'a' as int) as char else c
  }

  /** `s.toLowerCase()`, restricted to ASCII letters. */
  function ToLower(s: string): (r: string)
    ensures |r| == |s|
    ensures forall i :: 0 <= i < |s| ==> r[i] == LowerChar(s[i])
  {
    if s == [] then [] else [LowerChar(s[0])] + ToLower(s[1..])
  }

  /** Lower-casing leaves a string without upper-case ASCII letters as it is. */
  lemma ToLowerUnchanged(s: string)
    requires forall i :: 0 <= i < |s| ==> !('A' <= s[i] <= 'Z')
    ensures ToLower(s) == s
  {
  }

  /** Lower-casing distributes over concatenation. */
  lemma ToLowerAppend(s: string, t: string)
    ensures ToLower(s + t) == ToLower(s) + ToLower(t)
  {
    var l := ToLower(s + t);
    forall i | 0 <= i < |s| + |t| ensures l[i] == (ToLower(s) + ToLower(t))[i] {
      if i < |s| {
        assert (s + t)[i] == s[i];
      } else {
        assert (s + t)[i] == t[i - |s|];
      }
    }
  }

  /** `s` begins with `p`. */
  predicate StartsWith(s: string, p: string) {
    |p| <= |s| && s[..|p|] == p
  }

  /** `q` occurs in `s` starting at index `i`. */
  ghost predicate OccursAt(s: string, q: string, i: int) {
    0 <= i && i + |q| <= |s| && s[i..i + |q|] == q
  }

  /** `s.includes(q)`, computed by trying each starting position from the left. */
  predicate Includes(s: string, q: string)
    decreases |s|
  {
    StartsWith(s, q) || (s != [] && Includes(s[1..], q))
  }

  /** `Includes` holds exactly when `q` occurs in `s` at some position. */
  lemma {:induction false} IncludesIff(s: string, q: string)
    ensures Includes(s, q) <==> exists i :: OccursAt(s, q, i)
    decreases |s|
  {
    if StartsWith(s, q) {
      assert OccursAt(s, q, 0);
    }
    if s != [] {
      IncludesIff(s[1..], q);
      if Includes(s[1..], q) {
        var j :| OccursAt(s[1..], q, j);
        assert s[1..][j..j + |q|] == s[j + 1..j + 1 + |q|];
        assert OccursAt(s, q, j + 1);
      }
      forall i | OccursAt(s, q, i) ensures StartsWith(s, q) || OccursAt(s[1..], q, i - 1) {
        if i != 0 {
          assert s[1..][i - 1..i - 1 + |q|] == s[i..i + |q|];
        }
      }
    }
  }

  /** A prefix without the query's first character contributes no occurrence. */
  lemma {:induction false} IncludesSkipPrefix(u: string, v: string, q: string)
    requires q != [] && q[0] !in u
    ensures Includes(u + v, q) == Includes(v, q)
    decreases |u|
  {
    if u == [] {
      assert u + v == v;
    } else {
      assert (u + v)[0] == u[0];
      assert (u + v)[1..] == u[1..] + v;
      IncludesSkipPrefix(u[1..], v, q);
    }
  }

  /** The result of `Number(s)` for the inputs this model covers: an integer, or NaN. */
  datatype JsNumber = NaN | Finite(value: int)

  predicate IsDigit(c: char) {
    '0' <= c <= '9'
  }

  predicate AllDigits(s: string) {
    forall i :: 0 <= i < |s| ==> IsDigit(s[i])
  }

  /** The value of a run of decimal digits, most significant first. */
  function DigitsValue(ds: string): (n: nat)
    requires AllDigits(ds)
  {
    if ds == [] then 0 else DigitsValue(ds[..|ds| - 1]) * 10 + (ds[|ds| - 1] as int - '0' as int)
  }

  /** An unsigned decimal integer literal: one digit or more. */
  function ParseDigits(ds: string): JsNumber {
    if ds != [] && AllDigits(ds) then Finite(DigitsValue(ds)) else NaN
  }

  /** A signed decimal integer literal: an optional `+` or `-` followed by digits. */
  function ParseInteger(t: string): JsNumber {
    if t != [] && t[0] == '-' then
      match ParseDigits(t[1..])
      case Finite(n) => Finite(-n)
      case NaN => NaN
    else if t != [] && t[0] == '+' then
      ParseDigits(t[1..])
    else
      ParseDigits(t)
  }

  /**
   `Number(s)`: surrounding white space is ignored, a blank string converts to 0,
   and anything that is not an integer literal becomes NaN.
   */
  function ToNumber(s: string): (r: JsNumber)
    ensures IsBlank(s) ==> r == Finite(0)
    ensures r == NaN <==>
      !IsBlank(s) && var t := Trim(s);
        var ds := if t[0] == '-' || t[0] == '+' then t[1..] else t;
        ds == [] || exists i :: 0 <= i < |ds| && !IsDigit(ds[i])
  {
    TrimEmptyIff(s);
    var t := Trim(s);
    if t == [] then Finite(0)
    else
      var ds := if t[0] == '-' || t[0] == '+' then t[1..] else t;
      assert ParseInteger(t) == NaN <==> ParseDigits(ds) == NaN;
      assert ParseDigits(ds) == NaN <==> ds == [] || !AllDigits(ds);
      ParseInteger(t)
  }

  /** The digit character for `d`. */
  function DigitChar(d: int): (c: char)
    requires 0 <= d < 10
    ensures IsDigit(c) && c as int - '0' as int == d
  {
    ('0' as int + d) as char
  }

  /** The shortest decimal numeral of a natural number. */
  function Numeral(n: nat): (s: string)
    ensures s != [] && AllDigits(s)
  {
    if n < 10 then [DigitChar(n)] else Numeral(n / 10) + [DigitChar(n % 10)]
  }

  /** The decimal numeral of an integer, as `String(n)` writes it. */
  function Decimal(n: int): (s: string)
    ensures s != [] && IsDigit(s[|s| - 1])
    ensures if n < 0 then s[0] == '-' && AllDigits(s[1..]) else AllDigits(s)
  {
    if n < 0 then "-" + Numeral(-n) else Numeral(n)
  }

  lemma {:induction false} DigitsValueOfNumeral(n: nat)
    ensures DigitsValue(Numeral(n)) == n
  {
    if n >= 10 {
      var s := Numeral(n);
      assert s[..|s| - 1] == Numeral(n / 10);
      DigitsValueOfNumeral(n / 10);
    }
  }

  /** The numeral of a natural number parses back to it. */
  lemma ParseDigitsOfNumeral(n: nat)
    ensures ParseDigits(Numeral(n)) == Finite(n)
  {
    DigitsValueOfNumeral(n);
  }

  /** A numeral is never blank: it starts with a sign or a digit. */
  lemma DecimalNotBlank(n: int)
    ensures !IsBlank(Decimal(n))
  {
    var s := Decimal(n);
    assert !IsWhitespace(s[0]);
  }

  /** Converting a numeral back with `Number` gives the integer it was written from. */
  lemma ToNumberOfDecimal(n: int)
    ensures ToNumber(Decimal(n)) == Finite(n)
  {
    var s := Decimal(n);
    if n < 0 {
      var m := -n;
      ParseDigitsOfNumeral(m);
      assert s[1..] == Numeral(m);
      assert ParseInteger(s) == Finite(n);
    } else {
      ParseDigitsOfNumeral(n);
      assert ParseInteger(s) == Finite(n);
    }
    assert IsDigit(s[|s| - 1]);
    TrimUnpadded(s);
  }

  /** Text that starts with something other than white space, a sign or a digit converts to NaN. */
  lemma ToNumberNonNumeric(s: string)
    requires s != [] && !IsWhitespace(s[0])
    requires !IsDigit(s[0]) && s[0] != '-' && s[0] != '+'
    ensures ToNumber(s) == NaN
  {
    assert TrimStart(s) == s;
    TrimEmptyIff(s);
    var r := Trim(s);
    assert r == TrimEnd(s) && r != [];
    assert r[0] == s[0];
  }

  /** Leading zeros do not change the value of a run of digits. */
  lemma {:induction false} LeadingZerosValue(z: string, ds: string)
    requires forall i :: 0 <= i < |z| ==> z[i] == '0'
    requires AllDigits(ds)
    ensures AllDigits(z + ds) && DigitsValue(z + ds) == DigitsValue(ds)
    decreases |z| + |ds|
  {
    var s := z + ds;
    if s != [] {
      var init := s[..|s| - 1];
      if ds == [] {
        assert s == z && init == z[..|z| - 1];
        LeadingZerosValue(z[..|z| - 1], ds);
        assert init + ds == init;
      } else {
        assert init == z + ds[..|ds| - 1];
        LeadingZerosValue(z, ds[..|ds| - 1]);
      }
    }
  }

  /** A run of digits with nothing around it converts to its value. */
  lemma ToNumberOfDigits(s: string)
    requires s != [] && AllDigits(s)
    ensures ToNumber(s) == Finite(DigitsValue(s))
  {
    TrimUnpadded(s);
  }

  /** White space around a literal does not change what it converts to. */
  lemma ToNumberPadded(pre: string, s: string, post: string)
    requires IsBlank(pre) && IsBlank(post)
    requires s != [] && !IsWhitespace(s[0]) && !IsWhitespace(s[|s| - 1])
    ensures ToNumber(pre + s + post) == ToNumber(s)
  {
    TrimPadded(pre, s, post);
    TrimUnpadded(s);
  }

  /** A numeral written with leading zeros is still a run of digits with the same value. */
  lemma ZerosNumeralValue(z: string, n: nat)
    requires forall i :: 0 <= i < |z| ==> z[i] == '0'
    ensures z + Numeral(n) != [] && AllDigits(z + Numeral(n)) && DigitsValue(z + Numeral(n)) == n
  {
    LeadingZerosValue(z, Numeral(n));
    DigitsValueOfNumeral(n);
  }

  /** A run of digits with white space around it converts to the value of the digits. */
  lemma ToNumberPaddedDigits(pre: string, ds: string, post: string)
    requires IsBlank(pre) && IsBlank(post) && ds != [] && AllDigits(ds)
    ensures ToNumber(pre + ds + post) == Finite(DigitsValue(ds))
  {
    assert IsDigit(ds[0]) && IsDigit(ds[|ds| - 1]);
    ToNumberPadded(pre, ds, post);
    ToNumberOfDigits(ds);
  }

  /** A numeral with leading zeros and surrounding white space converts to the number it writes. */
  lemma ToNumberPaddedNumeral(pre: string, z: string, n: nat, post: string)
    requires IsBlank(pre) && IsBlank(post)
    requires forall i :: 0 <= i < |z| ==> z[i] == '0'
    ensures ToNumber(pre + (z + Numeral(n)) + post) == Finite(n)
  {
    ZerosNumeralValue(z, n);
    ToNumberPaddedDigits(pre, z + Numeral(n), post);
  }

  /** A sign followed by digits, with white space around it, converts to the signed value of the digits. */
  lemma ToNumberPaddedSignedDigits(pre: string, sign: char, ds: string, post: string)
    requires IsBlank(pre) && IsBlank(post) && (sign == '-' || sign == '+') && ds != [] && AllDigits(ds)
    ensures ToNumber(pre + ([sign] + ds) + post) ==
      Finite(if sign == '-' then -(DigitsValue(ds) as int) else DigitsValue(ds))
  {
    var s := [sign] + ds;
    assert s[1..] == ds;
    assert IsDigit(s[|s| - 1]);
    TrimUnpadded(s);
    ToNumberPadded(pre, s, post);
  }

  /** The same with a sign in front: `-` negates the number and `+` keeps it. */
  lemma ToNumberSignedNumeral(pre: string, sign: char, z: string, n: nat, post: string)
    requires IsBlank(pre) && IsBlank(post) && (sign == '-' || sign == '+')
    requires forall i :: 0 <= i < |z| ==> z[i] == '0'
    ensures ToNumber(pre + ([sign] + (z + Numeral(n))) + post) == Finite(if sign == '-' then -(n as int) else n)
  {
    ZerosNumeralValue(z, n);
    ToNumberPaddedSignedDigits(pre, sign, z + Numeral(n), post);
  }
}
