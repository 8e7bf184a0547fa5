/**
 * The string keys "q,r" under which the packer stores board cells
 * (`SKey` and `parseKey` in functions.js), with the parts of JavaScript's
 * template-literal number formatting, `String.prototype.split` and
 * `parseInt` that those two functions rely on.
 */
module Keys {
  import opened Wrappers

  predicate IsDigit(c: char) { '0' <= c <= '9' }

  predicate AllDigits(s: string) { forall i :: 0 <= i < |s| ==> IsDigit(s[i]) }

  function DigitChar(d: int): (c: char)
    requires 0 <= d < 10
    ensures IsDigit(c) && c as int - '0' as int == d
  {
    ('0' as int + d) as char
  }

  /** Decimal digits of a natural number, most significant first, no leading zeros. */
  function NatToDigits(n: nat): (s: string)
    ensures |s| > 0 && AllDigits(s)
    decreases n
  {
    if n < 10 then [DigitChar(n)] else NatToDigits(n / 10) + [DigitChar(n % 10)]
  }

  /**
   * `${n}` for an integer n of magnitude below 10^21; JavaScript writes
   * larger numbers in exponent form, which is not modelled.
   */
  function IntToString(n: int): (s: string)
  {
    if n < 0 then "-" + NatToDigits(-n) else NatToDigits(n)
  }

  /** SKey(x, y): the map key `${x},${y}`. */
  function SKey(x: int, y: int): string
  {
    IntToString(x) + "," + IntToString(y)
  }

  /** Value of a string of decimal digits, most significant first. */
  function DigitsValue(s: string): nat
    requires AllDigits(s)
  {
    if s == [] then 0
    else DigitsValue(s[..|s| - 1]) * 10 + (s[|s| - 1] as int - '0' as int)
  }

  /** The longest prefix of `s` made of decimal digits. */
  function DigitPrefix(s: string): (p: string)
    ensures AllDigits(p) && p <= s
    ensures |p| < |s| ==> !IsDigit(s[|p|])
  {
    if s != [] && IsDigit(s[0]) then [s[0]] + DigitPrefix(s[1..]) else []
  }

  /** The white space `parseInt` skips before the number (ASCII part). */
  predicate IsSpace(c: char)
  {
    c == ' ' || c == '\t' || c == '\n' || c == '\r' || c == '\U{B}' || c == '\U{C}'
  }

  function TrimStart(s: string): (t: string)
    ensures t <= s || (|t| <= |s| && t == s[|s| - |t|..])
    ensures t != [] ==> !IsSpace(t[0])
  {
    if s != [] && IsSpace(s[0]) then TrimStart(s[1..]) else s
  }

  /**
   * parseInt(s) on the decimal strings SKey writes: skip leading white
   * space, read an optional sign and the longest run of decimal digits after
   * it; no digit at all gives NaN (here None). The "0x" prefix that the
   * default radix also accepts is not modelled.
   */
  function ParseInt(s: string): Option<int>
  {
    var t := TrimStart(s);
    var negative := t != [] && t[0] == '-';
    var body := if t != [] && (t[0] == '-' || t[0] == '+') then t[1..] else t;
    var digits := DigitPrefix(body);
    var magnitude: int := DigitsValue(digits);
    if digits == [] then None
    else if negative then Some(-magnitude)
    else Some(magnitude)
  }

  /** s.split(sep) for a one-character separator. */
  function Split(s: string, sep: char): (parts: seq<string>)
    ensures |parts| >= 1
  {
    if s == [] then [""]
    else if s[0] == sep then [""] + Split(s[1..], sep)
    else
      var rest := Split(s[1..], sep);
      [[s[0]] + rest[0]] + rest[1..]
  }

  /** parseKey(s): split at ',' and parseInt every part. */
  function ParseKey(s: string): seq<Option<int>>
  {
    var parts := Split(s, ',');
    seq(|parts|, i requires 0 <= i < |parts| => ParseInt(parts[i]))
  }

  /** The key that script.js's unplace writes: `${undefined},${undefined}`. */
  const UndefinedKey: string := "undefined,undefined"

  // ---------------------------------------------------------------------
  // Round trip

  lemma {:induction false} DigitsValueOfDigits(n: nat)
    ensures DigitsValue(NatToDigits(n)) == n
    decreases n
  {
    if n >= 10 {
      var s := NatToDigits(n);
      DigitsValueOfDigits(n / 10);
      assert s[..|s| - 1] == NatToDigits(n / 10);
    }
  }

  lemma {:induction false} DigitPrefixOfDigits(s: string, rest: string)
    requires AllDigits(s)
    requires rest == [] || !IsDigit(rest[0])
    ensures DigitPrefix(s + rest) == s
  {
    if s != [] {
      assert (s + rest)[1..] == s[1..] + rest;
      DigitPrefixOfDigits(s[1..], rest);
    }
  }

  /** parseInt(`${n}`) gives n back. */
  lemma ParseIntOfIntToString(n: int)
    ensures ParseInt(IntToString(n)) == Some(n)
  {
    if n < 0 {
      ParseIntOfNegative(-n);
    } else {
      ParseIntOfNatural(n);
    }
  }

  lemma ParseIntOfNatural(m: nat)
    ensures ParseInt(NatToDigits(m)) == Some(m)
  {
    var digits := NatToDigits(m);
    DigitsValueOfDigits(m);
    DigitPrefixOfDigits(digits, []);
    assert digits + [] == digits;
    assert TrimStart(digits) == digits;
  }

  lemma ParseIntOfNegative(m: int)
    requires m > 0
    ensures ParseInt("-" + NatToDigits(m)) == Some(-m)
  {
    var digits := NatToDigits(m);
    var s := "-" + digits;
    assert s[0] == '-' && s[1..] == digits;
    assert TrimStart(s) == s;
    DigitPrefixOfDigits(digits, []);
    assert digits + [] == digits;
    DigitsValueOfDigits(m);
    assert DigitsValue(DigitPrefix(s[1..])) == m;
  }

  lemma {:induction false} SplitWithoutSeparator(s: string, sep: char)
    requires sep !in s
    ensures Split(s, sep) == [s]
  {
    if s != [] {
      assert s[0] != sep && sep !in s[1..];
      SplitWithoutSeparator(s[1..], sep);
      assert [s[0]] + s[1..] == s;
    }
  }

  lemma {:induction false} SplitAtSeparator(a: string, b: string, sep: char)
    requires sep !in a
    ensures Split(a + [sep] + b, sep) == [a] + Split(b, sep)
  {
    if a == [] {
      assert a + [sep] + b == [sep] + b;
    } else {
      var s := a + [sep] + b;
      assert s[0] == a[0] && a[0] != sep;
      assert s[1..] == a[1..] + [sep] + b;
      SplitAtSeparator(a[1..], b, sep);
      assert [a[0]] + a[1..] == a;
    }
  }

  lemma IntToStringHasNoComma(n: int)
    ensures ',' !in IntToString(n)
    ensures IntToString(n)[0] == '-' || IsDigit(IntToString(n)[0])
  {
    var m: nat := if n < 0 then -n else n;
    assert AllDigits(NatToDigits(m));
  }

  /** parseKey(SKey(x, y)) is [x, y]: no key loses or mixes up a coordinate. */
  lemma KeyRoundTrip(x: int, y: int)
    ensures ParseKey(SKey(x, y)) == [Some(x), Some(y)]
  {
    IntToStringHasNoComma(x);
    IntToStringHasNoComma(y);
    SplitAtSeparator(IntToString(x), IntToString(y), ',');
    SplitWithoutSeparator(IntToString(y), ',');
    assert SKey(x, y) == IntToString(x) + [','] + IntToString(y);
    ParseIntOfIntToString(x);
    ParseIntOfIntToString(y);
  }

  /** Distinct cells have distinct keys, so a map keyed by SKey is a map keyed by cells. */
  lemma SKeyInjective(a: int, b: int, c: int, d: int)
    requires SKey(a, b) == SKey(c, d)
    ensures a == c && b == d
  {
    KeyRoundTrip(a, b);
    KeyRoundTrip(c, d);
  }

  /** No cell's key is "undefined,undefined". */
  lemma UndefinedKeyIsNoCellKey(x: int, y: int)
    ensures SKey(x, y) != UndefinedKey
  {
    IntToStringHasNoComma(x);
    assert SKey(x, y)[0] == IntToString(x)[0];
    assert UndefinedKey[0] == 'u';
  }
}
