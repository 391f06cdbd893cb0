/**
 * String helpers shared by the parsers and formatters: ASCII digits, decimal
 * rendering of numbers, ASCII case folding, ordinal comparison, prefix tests and
 * the integer parser `int.TryParse` uses for `NumberStyles.Integer`.
 */
module Text {
  import opened Wrappers

  predicate IsDigit(c: char)
  {
    '0' <= c <= '9'
  }

  predicate AllDigits(s: string)
  {
    forall i :: 0 <= i < |s| ==> IsDigit(s[i])
  }

  lemma SliceDigits(s: string, a: nat, b: nat)
    requires a <= b <= |s|
    requires forall k :: a <= k < b ==> IsDigit(s[k])
    ensures AllDigits(s[a..b])
  {
    forall k | 0 <= k < b - a ensures IsDigit(s[a..b][k]) {
      assert s[a..b][k] == s[a + k];
    }
  }

  /** The three parts of `x + y + z`, as slices. */
  lemma Parts3(x: string, y: string, z: string)
    ensures var t := x + y + z; t[..|x|] == x && t[|x|..|x| + |y|] == y && t[|x| + |y|..] == z
  {
  }

  /** A slice of a text that `s` holds at `i`, as a slice of `s`. */
  lemma SliceWithin(s: string, i: nat, t: string, a: nat, b: nat)
    requires i + |t| <= |s| && s[i..i + |t|] == t && a <= b <= |t|
    ensures s[i + a..i + b] == t[a..b]
  {
    forall k | 0 <= k < b - a ensures s[i + a..i + b][k] == t[a..b][k] {
      assert s[i + a + k] == s[i..i + |t|][a + k];
    }
  }

  lemma DigitsHaveNoNewline(s: string)
    requires AllDigits(s)
    ensures '\n' !in s && '.' !in s && '+' !in s && '-' !in s
  {
    forall i | 0 <= i < |s| ensures s[i] != '\n' && s[i] != '.' && s[i] != '+' && s[i] != '-' {
      assert IsDigit(s[i]);
    }
  }

  function DigitValue(c: char): nat
    requires IsDigit(c)
  {
    c as int - '0' as int
  }

  function DigitChar(d: nat): char
    requires d < 10
  {
    ('0' as int + d) as char
  }

  /** The number a run of decimal digits denotes (leading zeros allowed). */
  function DigitsValue(s: string): nat
    requires AllDigits(s)
    decreases |s|
  {
    if s == [] then 0 else DigitsValue(s[..|s| - 1]) * 10 + DigitValue(s[|s| - 1])
  }

  /** The length of the run of ASCII digits at `i`. */
  function DigitRun(s: string, i: nat): (n: nat)
    requires i <= |s|
    ensures i + n <= |s|
    ensures forall k :: i <= k < i + n ==> IsDigit(s[k])
    ensures i + n < |s| ==> !IsDigit(s[i + n])
    decreases |s| - i
  {
    if i < |s| && IsDigit(s[i]) then DigitRun(s, i + 1) + 1 else 0
  }

  lemma {:induction false} DigitRunOf(s: string, i: nat, n: nat)
    requires i + n <= |s|
    requires forall k :: i <= k < i + n ==> IsDigit(s[k])
    requires i + n == |s| || !IsDigit(s[i + n])
    ensures DigitRun(s, i) == n
    decreases n
  {
    if n > 0 {
      DigitRunOf(s, i + 1, n - 1);
    }
  }

  /** The length of the run at `i` of characters other than `c` (`[^c]*`). */
  function RunWithout(s: string, i: nat, c: char): (n: nat)
    requires i <= |s|
    ensures i + n <= |s|
    ensures i + n < |s| ==> s[i + n] == c
    decreases |s| - i
  {
    if i < |s| && s[i] != c then RunWithout(s, i + 1, c) + 1 else 0
  }

  /** No character of the run measured by `RunWithout` is `c`. */
  lemma {:induction false} RunWithoutExcludes(s: string, i: nat, c: char)
    requires i <= |s|
    ensures forall k :: i <= k < i + RunWithout(s, i, c) ==> s[k] != c
    ensures c !in s[i..i + RunWithout(s, i, c)]
    decreases |s| - i
  {
    if i < |s| && s[i] != c {
      RunWithoutExcludes(s, i + 1, c);
    }
  }

  lemma {:induction false} RunWithoutOf(s: string, i: nat, c: char, n: nat)
    requires i + n <= |s|
    requires forall k :: i <= k < i + n ==> s[k] != c
    requires i + n == |s| || s[i + n] == c
    ensures RunWithout(s, i, c) == n
    decreases n
  {
    if n > 0 {
      RunWithoutOf(s, i + 1, c, n - 1);
    }
  }

  /** `n.ToString()`: the decimal digits of `n`, without leading zeros. */
  function NatToString(n: nat): (r: string)
    ensures |r| > 0 && AllDigits(r)
    ensures r[0] == '0' ==> n == 0 && r == "0"
    decreases n
  {
    if n < 10 then [DigitChar(n)] else NatToString(n / 10) + [DigitChar(n % 10)]
  }

  /** `i.ToString()` for any integer: a '-' before the digits of a negative number. */
  function IntToString(i: int): (r: string)
    ensures r != []
  {
    if i < 0 then "-" + NatToString(-i) else NatToString(i)
  }

  lemma {:induction false} NatToStringRoundTrip(n: nat)
    ensures DigitsValue(NatToString(n)) == n
    decreases n
  {
    var r := NatToString(n);
    if n >= 10 {
      NatToStringRoundTrip(n / 10);
      assert r[..|r| - 1] == NatToString(n / 10);
    }
  }

  lemma NatToStringInjective(m: nat, n: nat)
    requires NatToString(m) == NatToString(n)
    ensures m == n
  {
    NatToStringRoundTrip(m);
    NatToStringRoundTrip(n);
  }

  /** A digit run followed by `.` splits a string in one way only. */
  lemma DigitsThenDotUnique(x: string, y: string, r1: string, r2: string)
    requires AllDigits(x) && AllDigits(y)
    requires x + "." + r1 == y + "." + r2
    ensures x == y && r1 == r2
  {
    var s := x + "." + r1;
    assert s[|x|] == '.';
    DigitRunOf(s, 0, |x|);
    assert (y + "." + r2)[|y|] == '.';
    DigitRunOf(y + "." + r2, 0, |y|);
    assert x == s[..|x|] && y == s[..|y|];
    assert r1 == s[|x| + 1..];
  }

  /** A string of `n` zero digits. */
  function Zeros(n: nat): (r: string)
    ensures |r| == n && forall i :: 0 <= i < n ==> r[i] == '0'
  {
    if n == 0 then [] else Zeros(n - 1) + ['0']
  }

  /** `n.ToString("D" + width)`: the decimal digits of `n`, left-padded with zeros to `width`. */
  function PadDigits(n: nat, width: nat): (r: string)
    ensures AllDigits(r)
    ensures |r| == if |NatToString(n)| < width then width else |NatToString(n)|
    ensures DigitsValue(r) == n
  {
    var d := NatToString(n);
    var r := if |d| < width then Zeros(width - |d|) + d else d;
    NatToStringRoundTrip(n);
    LeadingZerosValue(if |d| < width then width - |d| else 0, d);
    assert r == Zeros(if |d| < width then width - |d| else 0) + d;
    r
  }

  /** The number of '0' digit placeholders in a custom numeric format. */
  function Placeholders(f: string): nat
    decreases |f|
  {
    if f == [] then 0 else Placeholders(f[..|f| - 1]) + (if f[|f| - 1] == '0' then 1 else 0)
  }

  /**
   * The placeholders of `f` filled from the right with the digits `ds`, one digit each,
   * the leftmost placeholder taking all the digits that remain; every other character of
   * `f` is copied as it stands.
   */
  function FillPlaceholders(f: string, ds: string): string
    requires Placeholders(f) <= |ds|
    decreases |f|
  {
    if f == [] then []
    else
      var init, c := f[..|f| - 1], f[|f| - 1];
      if c != '0' then FillPlaceholders(init, ds) + [c]
      else if Placeholders(init) == 0 then init + ds
      else FillPlaceholders(init, ds[..|ds| - 1]) + [ds[|ds| - 1]]
  }

  /**
   * `n.ToString(f)` for a custom numeric format `f` whose only special characters are
   * '0' placeholders: the digits of `n`, zero-padded to the number of placeholders, fill
   * them, and a format without placeholders shows no digit of `n`.
   */
  function CustomFormat(n: nat, f: string): string
  {
    FillPlaceholders(f, PadDigits(n, Placeholders(f)))
  }

  /** A format has a placeholder exactly when it holds a '0'. */
  lemma {:induction false} PlaceholdersNone(f: string)
    ensures Placeholders(f) == 0 <==> '0' !in f
    decreases |f|
  {
    if f != [] {
      PlaceholdersNone(f[..|f| - 1]);
      assert f == f[..|f| - 1] + [f[|f| - 1]];
    }
  }

  /** Placeholders count up over a concatenation. */
  lemma {:induction false} PlaceholdersAppend(a: string, b: string)
    ensures Placeholders(a + b) == Placeholders(a) + Placeholders(b)
    decreases |b|
  {
    if b != [] {
      var b0 := b[..|b| - 1];
      assert (a + b)[..|a + b| - 1] == a + b0 && (a + b)[|a + b| - 1] == b[|b| - 1];
      PlaceholdersAppend(a, b0);
    } else {
      assert a + b == a;
    }
  }

  /** Filling puts one character of `ds` in place of each placeholder but the leftmost, which takes the rest. */
  lemma {:induction false} FillLength(f: string, ds: string)
    requires Placeholders(f) <= |ds|
    ensures |FillPlaceholders(f, ds)| == if Placeholders(f) == 0 then |f| else |f| - Placeholders(f) + |ds|
    decreases |f|
  {
    if f != [] {
      var init := f[..|f| - 1];
      if f[|f| - 1] != '0' {
        FillLength(init, ds);
      } else if Placeholders(init) != 0 {
        FillLength(init, ds[..|ds| - 1]);
      }
    }
  }

  /** Without placeholders the format is copied as it stands. */
  lemma {:induction false} FillWithoutPlaceholders(f: string, ds: string)
    requires Placeholders(f) == 0
    ensures FillPlaceholders(f, ds) == f
    decreases |f|
  {
    if f != [] {
      FillWithoutPlaceholders(f[..|f| - 1], ds);
      assert f == f[..|f| - 1] + [f[|f| - 1]];
    }
  }

  /** Literal characters after the last placeholder are copied after the filled part. */
  lemma {:induction false} FillLiteralTail(a: string, b: string, ds: string)
    requires Placeholders(b) == 0 && Placeholders(a) <= |ds|
    ensures Placeholders(a + b) <= |ds| && FillPlaceholders(a + b, ds) == FillPlaceholders(a, ds) + b
    decreases |b|
  {
    PlaceholdersAppend(a, b);
    if b != [] {
      var b0, c := b[..|b| - 1], b[|b| - 1];
      assert Placeholders(b0) == 0 && c != '0';
      assert (a + b)[..|a + b| - 1] == a + b0 && (a + b)[|a + b| - 1] == c;
      FillLiteralTail(a, b0, ds);
      assert FillPlaceholders(a + b, ds) == FillPlaceholders(a + b0, ds) + [c];
      assert b0 + [c] == b;
    } else {
      assert a + b == a;
    }
  }

  /** Two placeholders at the end of the format take all the digits, in order. */
  lemma FillTrailingPlaceholders(a: string, ds: string)
    requires '0' !in a && |ds| >= 2
    ensures Placeholders(a + "00") <= |ds| && FillPlaceholders(a + "00", ds) == a + ds
  {
    PlaceholdersNone(a);
    var a0, a00 := a + "0", a + "00";
    assert a0[..|a0| - 1] == a && a00[..|a00| - 1] == a0 && a00[|a00| - 1] == '0' && a0[|a0| - 1] == '0';
    assert Placeholders(a0) == 1;
    assert FillPlaceholders(a0, ds[..|ds| - 1]) == a + ds[..|ds| - 1];
    assert ds[..|ds| - 1] + [ds[|ds| - 1]] == ds;
  }

  /** A format with one placeholder shows all the digits of `n` in its place. */
  lemma CustomFormatOnePlaceholder(n: nat, a: string, b: string)
    requires '0' !in a && '0' !in b
    ensures CustomFormat(n, a + "0" + b) == a + NatToString(n) + b
  {
    PlaceholdersNone(a);
    PlaceholdersNone(b);
    var a0 := a + "0";
    assert a0[..|a0| - 1] == a;
    assert Placeholders(a0) == 1;
    PlaceholdersAppend(a0, b);
    var ds := PadDigits(n, 1);
    assert ds == NatToString(n);
    FillLiteralTail(a0, b, ds);
  }

  /** A format without placeholders is shown as it stands, whatever the number. */
  lemma CustomFormatWithoutPlaceholders(n: nat, f: string)
    requires '0' !in f
    ensures CustomFormat(n, f) == f
  {
    PlaceholdersNone(f);
    FillWithoutPlaceholders(f, PadDigits(n, 0));
  }

  lemma {:induction false} LeadingZerosValue(k: nat, d: string)
    requires AllDigits(d)
    ensures AllDigits(Zeros(k) + d)
    ensures DigitsValue(Zeros(k) + d) == DigitsValue(d)
    decreases |d|
  {
    var s := Zeros(k) + d;
    assert AllDigits(s) by {
      forall i | 0 <= i < |s| ensures IsDigit(s[i]) {
        if i >= k { assert s[i] == d[i - k]; }
      }
    }
    if d == [] {
      assert s == Zeros(k);
      ZerosValue(k);
    } else {
      LeadingZerosValue(k, d[..|d| - 1]);
      assert s[..|s| - 1] == Zeros(k) + d[..|d| - 1];
    }
  }

  lemma {:induction false} ZerosValue(k: nat)
    ensures AllDigits(Zeros(k)) && DigitsValue(Zeros(k)) == 0
  {
    if k > 0 {
      ZerosValue(k - 1);
      assert Zeros(k)[..k - 1] == Zeros(k - 1);
    }
  }

  /** Invariant lower-casing of one character; only ASCII letters change. */
  function ToLowerChar(c: char): char
  {
    if 'A' <= c <= 'Z' then (c as int + 32) as char else c
  }

  /** `s.ToLower()` for the ASCII letters. */
  function ToLower(s: string): string
  {
    seq(|s|, i requires 0 <= i < |s| => ToLowerChar(s[i]))
  }

  lemma LowerCaseUnchanged(s: string)
    requires forall i :: 0 <= i < |s| ==> !('A' <= s[i] <= 'Z')
    ensures ToLower(s) == s
  {
  }

  predicate EqualsIgnoreCase(a: string, b: string)
  {
    ToLower(a) == ToLower(b)
  }

  /** Ordinal comparison of two strings, as the sign -1, 0 or 1. */
  function CompareOrdinal(a: string, b: string): (r: int)
    ensures r == -1 || r == 0 || r == 1
    ensures r == 0 <==> a == b
    decreases |a|
  {
    if a == [] then (if b == [] then 0 else -1)
    else if b == [] then 1
    else if a[0] < b[0] then -1
    else if a[0] > b[0] then 1
    else
      var r := CompareOrdinal(a[1..], b[1..]);
      assert a == [a[0]] + a[1..] && b == [b[0]] + b[1..];
      r
  }

  lemma {:induction false} CompareOrdinalAntisymmetric(a: string, b: string)
    ensures CompareOrdinal(a, b) == -CompareOrdinal(b, a)
    decreases |a|
  {
    if a != [] && b != [] && a[0] == b[0] {
      CompareOrdinalAntisymmetric(a[1..], b[1..]);
    }
  }

  lemma {:induction false} CompareOrdinalTransitive(a: string, b: string, c: string)
    requires CompareOrdinal(a, b) <= 0 && CompareOrdinal(b, c) <= 0
    ensures CompareOrdinal(a, c) <= 0
    decreases |a|
  {
    if a != [] && b != [] && c != [] && a[0] == b[0] && b[0] == c[0] {
      CompareOrdinalTransitive(a[1..], b[1..], c[1..]);
    }
  }

  /**
   * `StringComparer.InvariantCultureIgnoreCase.Compare` on two non-null strings,
   * modelled as the ordinal comparison of the lower-cased strings.
   */
  function CompareIgnoreCase(a: string, b: string): (r: int)
    ensures r == -1 || r == 0 || r == 1
    ensures r == 0 <==> EqualsIgnoreCase(a, b)
  {
    CompareOrdinal(ToLower(a), ToLower(b))
  }

  /**
   * The same comparer on references that may be null: null compares equal to null
   * and below every string.
   */
  function CompareNullableIgnoreCase(a: Option<string>, b: Option<string>): (r: int)
    ensures r == -1 || r == 0 || r == 1
    ensures r == 0 <==> (a.None? && b.None?) || (a.Some? && b.Some? && EqualsIgnoreCase(a.value, b.value))
  {
    match (a, b)
    case (None, None) => 0
    case (None, Some(_)) => -1
    case (Some(_), None) => 1
    case (Some(x), Some(y)) => CompareIgnoreCase(x, y)
  }

  lemma CompareNullableIgnoreCaseAntisymmetric(a: Option<string>, b: Option<string>)
    ensures CompareNullableIgnoreCase(a, b) == -CompareNullableIgnoreCase(b, a)
  {
    if a.Some? && b.Some? {
      CompareOrdinalAntisymmetric(ToLower(a.value), ToLower(b.value));
    }
  }

  /** `s.TrimStart(c)`: `s` without its leading run of `c`. */
  function TrimStart(s: string, c: char): (r: string)
    ensures |r| <= |s| && r == s[|s| - |r|..]
    ensures r == [] || r[0] != c
    ensures forall i :: 0 <= i < |s| - |r| ==> s[i] == c
  {
    if s != [] && s[0] == c then TrimStart(s[1..], c) else s
  }

  /** The white space `int.TryParse` allows around a number: U+0009 to U+000D and the space. */
  predicate IsWhite(c: char)
  {
    c == ' ' || '\t' <= c <= '\r'
  }

  /**
   * `char.IsWhiteSpace`: the Unicode space separators, the line and paragraph separators,
   * the controls U+0009 to U+000D and U+0085.
   */
  predicate IsWhiteSpace(c: char)
  {
    IsWhite(c) || c == '\U{0085}' || c == '\U{00A0}' || c == '\U{1680}' || '\U{2000}' <= c <= '\U{200A}' ||
    c == '\U{2028}' || c == '\U{2029}' || c == '\U{202F}' || c == '\U{205F}' || c == '\U{3000}'
  }

  function TrimWhiteStart(s: string): string
  {
    if s != [] && IsWhite(s[0]) then TrimWhiteStart(s[1..]) else s
  }

  function TrimWhiteEnd(s: string): string
  {
    if s != [] && IsWhite(s[|s| - 1]) then TrimWhiteEnd(s[..|s| - 1]) else s
  }

  /** The range of .NET's 32-bit `int`. */
  const Int32Min := -0x8000_0000
  const Int32Max := 0x7fff_ffff

  /**
   * The text `int.TryParse` accepts with `NumberStyles.Integer`, read without a range
   * limit: optional white space, an optional sign, at least one decimal digit, optional
   * white space.
   */
  function SignedValue(s: string): (r: Option<int>)
    ensures s != [] && AllDigits(s) ==> r == Some(DigitsValue(s))
    ensures s == [] ==> r == None
  {
    var t := TrimWhiteEnd(TrimWhiteStart(s));
    if s != [] && AllDigits(s) then
      assert t == s;
      Some(DigitsValue(s))
    else if t != [] && (t[0] == '+' || t[0] == '-') then
      var d := t[1..];
      var v: int := if d != [] && AllDigits(d) then DigitsValue(d) else 0;
      if d != [] && AllDigits(d) then Some(if t[0] == '-' then -v else v) else None
    else if t != [] && AllDigits(t) then Some(DigitsValue(t))
    else None
  }

  /** `int.TryParse(s, out v)`: that text, failing when its value does not fit in an `int`. */
  function TryParseInt(s: string): (r: Option<int>)
    ensures s != [] && AllDigits(s) ==> r == if DigitsValue(s) <= Int32Max then Some(DigitsValue(s)) else None
    ensures s == [] ==> r == None
    ensures r.Some? ==> Int32Min <= r.value <= Int32Max
    ensures r.Some? <==> SignedValue(s).Some? && Int32Min <= SignedValue(s).value <= Int32Max
    ensures r.Some? ==> r == SignedValue(s)
  {
    var v := SignedValue(s);
    if v.Some? && Int32Min <= v.value <= Int32Max then v else None
  }

  /** `p` occurs in `s` at `j`, ignoring ASCII case. */
  predicate OccursAt(s: string, p: string, j: int)
  {
    0 <= j && j + |p| <= |s| && EqualsIgnoreCase(s[j..j + |p|], p)
  }

  /** The last index at which `p` occurs in `s`, ignoring ASCII case. */
  function LastIndexOfIgnoreCase(s: string, p: string): (r: Option<nat>)
    ensures r.Some? ==> OccursAt(s, p, r.value)
    ensures r.Some? ==> forall j :: r.value < j ==> !OccursAt(s, p, j)
    ensures r.None? ==> forall j :: !OccursAt(s, p, j)
  {
    LastIndexFrom(s, p, |s|)
  }

  function LastIndexFrom(s: string, p: string, k: int): (r: Option<nat>)
    requires k <= |s|
    ensures r.Some? ==> r.value <= k - |p| && OccursAt(s, p, r.value)
    ensures r.Some? ==> forall j :: r.value < j <= k - |p| ==> !OccursAt(s, p, j)
    ensures r.None? ==> forall j :: j <= k - |p| ==> !OccursAt(s, p, j)
    decreases k
  {
    if k - |p| < 0 then None
    else if EqualsIgnoreCase(s[k - |p|..k], p) then Some(k - |p|)
    else LastIndexFrom(s, p, k - 1)
  }
}
