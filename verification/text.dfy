/** The handful of Python string builtins the scripts rely on: `str()` of a
    non-negative int, `str.split`, `str.join`, the substring test `in`,
    string `<`, and `sorted` applied to two strings.
 */
module Text {
  import opened Wrappers

  predicate IsDigit(c: char) {
    '0' <= c <= '9'
  }

  predicate AllDigits(s: string) {
    forall i :: 0 <= i < |s| ==> IsDigit(s[i])
  }

  function DigitChar(d: nat): (c: char)
    requires d < 10
    ensures IsDigit(c) && c as int - '0' as int == d
  {
    ('0' as int + d) as char
  }

  function DigitValue(c: char): nat
    requires IsDigit(c)
  {
    c as int - '0' as int
  }

  /** `str(n)` for an int `n >= 0`: its decimal digits, most significant
      first, without leading zeros. */
  function Decimal(n: nat): (s: string)
    ensures |s| >= 1 && AllDigits(s)
    ensures s[0] == '0' ==> n == 0
    decreases n
  {
    if n < 10 then [DigitChar(n)] else Decimal(n / 10) + [DigitChar(n % 10)]
  }

  /** The number a non-empty run of decimal digits denotes. */
  function DigitsValue(s: string): nat
    requires AllDigits(s)
    decreases |s|
  {
    if s == [] then 0 else 10 * DigitsValue(s[..|s| - 1]) + DigitValue(s[|s| - 1])
  }

  function ParseNat(s: string): Option<nat> {
    if s != [] && AllDigits(s) then Some(DigitsValue(s)) else None
  }

  /** Reading back what `Decimal` wrote gives the number again. */
  lemma {:induction false} DecimalRoundTrip(n: nat)
    ensures ParseNat(Decimal(n)) == Some(n)
  {
    var s := Decimal(n);
    if n < 10 {
      assert s[..|s| - 1] == [];
      assert DigitValue(s[0]) == n;
      assert DigitsValue(s) == 10 * DigitsValue([]) + n;
    } else {
      DecimalRoundTrip(n / 10);
      assert s[..|s| - 1] == Decimal(n / 10);
      assert DigitValue(s[|s| - 1]) == n % 10;
      assert DigitsValue(s) == 10 * (n / 10) + n % 10;
    }
  }

  /** `str(n)` is injective. */
  lemma DecimalInjective(m: nat, n: nat)
    requires Decimal(m) == Decimal(n)
    ensures m == n
  {
    DecimalRoundTrip(m);
    DecimalRoundTrip(n);
  }

  /** The longest prefix of `s` made of digits. */
  function TakeDigits(s: string): (d: string)
    ensures AllDigits(d) && d <= s
    decreases |s|
  {
    if s != [] && IsDigit(s[0]) then [s[0]] + TakeDigits(s[1..]) else []
  }

  lemma {:induction false} TakeDigitsStops(d: string, c: char, rest: string)
    requires AllDigits(d) && !IsDigit(c)
    ensures TakeDigits(d + [c] + rest) == d
    decreases |d|
  {
    if d == [] {
    } else {
      assert (d + [c] + rest)[1..] == d[1..] + [c] + rest;
      TakeDigitsStops(d[1..], c, rest);
    }
  }

  predicate StartsWith(s: string, prefix: string) {
    |prefix| <= |s| && s[..|prefix|] == prefix
  }

  /** Python's `sub in s` for strings: `sub` occurs somewhere in `s`. */
  predicate Contains(s: string, sub: string)
    decreases |s|
  {
    StartsWith(s, sub) || (s != [] && Contains(s[1..], sub))
  }

  lemma {:induction false} NotContains(s: string, sub: string)
    requires sub != [] && sub[0] !in s
    ensures !Contains(s, sub)
    decreases |s|
  {
    if s != [] {
      assert s[0] in s;
      assert forall c :: c in s[1..] ==> c in s;
      NotContains(s[1..], sub);
    }
  }

  lemma {:induction false} ContainsMiddle(a: string, sub: string, b: string)
    ensures Contains(a + sub + b, sub)
    decreases |a|
  {
    if a != [] {
      assert (a + sub + b)[1..] == a[1..] + sub + b;
      ContainsMiddle(a[1..], sub, b);
    } else {
      assert (sub + b)[..|sub|] == sub;
    }
  }

  /** Python's `s.split(sep)`: cut at every occurrence of `sep`, scanning left
      to right without overlap. */
  function Split(s: string, sep: string): (parts: seq<string>)
    requires sep != []
    ensures |parts| >= 1
    decreases |s|
  {
    if |s| < |sep| then [s]
    else if s[..|sep|] == sep then [[]] + Split(s[|sep|..], sep)
    else
      var rest := Split(s[1..], sep);
      [[s[0]] + rest[0]] + rest[1..]
  }

  /** A string in which the separator cannot start splits into itself. */
  lemma {:induction false} SplitWhole(s: string, sep: string)
    requires sep != [] && sep[0] !in s
    ensures Split(s, sep) == [s]
    decreases |s|
  {
    if |s| >= |sep| {
      assert s[0] in s;
      assert forall c :: c in s[1..] ==> c in s;
      SplitWhole(s[1..], sep);
      assert [s[0]] + s[1..] == s;
    }
  }

  /** Splitting at the first separator, when the part before it cannot hold
      the separator's first character. */
  lemma {:induction false} SplitAfter(a: string, sep: string, b: string)
    requires sep != [] && sep[0] !in a
    ensures Split(a + sep + b, sep) == [a] + Split(b, sep)
    decreases |a|
  {
    var s := a + sep + b;
    if a == [] {
      assert s == sep + b;
      assert s[..|sep|] == sep;
      assert s[|sep|..] == b;
    } else {
      assert s[0] == a[0] && a[0] in a;
      assert s[..|sep|][0] == a[0];
      assert s[1..] == a[1..] + sep + b;
      assert forall c :: c in a[1..] ==> c in a;
      SplitAfter(a[1..], sep, b);
      assert [a[0]] + a[1..] == a;
    }
  }

  /** Python's `sep.join(parts)`. */
  function Join(parts: seq<string>, sep: string): string
    decreases |parts|
  {
    if parts == [] then []
    else if |parts| == 1 then parts[0]
    else parts[0] + sep + Join(parts[1..], sep)
  }

  /** `split` undoes `join` when no part can start a separator. */
  lemma {:induction false} SplitJoin(parts: seq<string>, sep: string)
    requires sep != [] && |parts| >= 1
    requires forall i :: 0 <= i < |parts| ==> sep[0] !in parts[i]
    ensures Split(Join(parts, sep), sep) == parts
    decreases |parts|
  {
    if |parts| == 1 {
      SplitWhole(parts[0], sep);
    } else {
      SplitAfter(parts[0], sep, Join(parts[1..], sep));
      SplitJoin(parts[1..], sep);
    }
  }

  /** Python's `<` on strings: lexicographic by code point, a proper prefix
      coming first. */
  predicate Less(a: string, b: string)
    decreases |a|
  {
    b != [] && (a == [] || a[0] < b[0] || (a[0] == b[0] && Less(a[1..], b[1..])))
  }

  lemma {:induction false} LessAsymmetric(a: string, b: string)
    ensures Less(a, b) ==> !Less(b, a)
    decreases |a|
  {
    if a != [] && b != [] && a[0] == b[0] {
      LessAsymmetric(a[1..], b[1..]);
    }
  }

  lemma {:induction false} LessConnected(a: string, b: string)
    requires a != b
    ensures Less(a, b) || Less(b, a)
    decreases |a|
  {
    if a != [] && b != [] && a[0] == b[0] {
      assert a == [a[0]] + a[1..] && b == [b[0]] + b[1..];
      LessConnected(a[1..], b[1..]);
    }
  }

  /** Python's `sorted([a, b])`. */
  function SortPair(a: string, b: string): (r: seq<string>)
  {
    if Less(b, a) then [b, a] else [a, b]
  }

  /** `sorted` of two strings returns them in ascending order, as a
      permutation of its input, and does not depend on their order. */
  lemma SortPairSpec(a: string, b: string)
    ensures multiset(SortPair(a, b)) == multiset{a, b}
    ensures !Less(SortPair(a, b)[1], SortPair(a, b)[0])
    ensures SortPair(a, b) == SortPair(b, a)
  {
    LessAsymmetric(a, b);
    LessAsymmetric(b, a);
    if a != b {
      LessConnected(a, b);
    }
  }
}
