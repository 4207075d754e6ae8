/**
  The string operations of the Python standard library that the classification
  code relies on: `str.lstrip(' ')`, `str.strip()`, `str.lower()`, `str(int)`,
  `str.split('__', 1)` and `';'.join(...)`.
 */
module Text {
  import opened Wrappers

  /** The characters for which Python's `str.isspace()` holds. */
  predicate IsSpace(c: char) {
    c == ' ' || c == '\t' || c == '\n' || c == '\r' || c == '\U{0B}' || c == '\U{0C}'
    || ('\U{1C}' <= c <= '\U{1F}') || c == '\U{85}' || c == '\U{A0}' || c == '\U{1680}'
    || ('\U{2000}' <= c <= '\U{200A}') || c == '\U{2028}' || c == '\U{2029}'
    || c == '\U{202F}' || c == '\U{205F}' || c == '\U{3000}'
  }

  /** Number of leading ' ' characters: `len(s) - len(s.lstrip(' '))`. */
  function LeadingSpaces(s: string): (n: nat)
    ensures n <= |s|
    ensures forall k :: 0 <= k < n ==> s[k] == ' '
    ensures n < |s| ==> s[n] != ' '
  {
    if |s| > 0 && s[0] == ' ' then 1 + LeadingSpaces(s[1..]) else 0
  }

  /** `s.lstrip()`: drops leading whitespace. */
  function StripLeft(s: string): (r: string)
    ensures |r| <= |s| && r == s[|s| - |r|..]
    ensures forall k :: 0 <= k < |s| - |r| ==> IsSpace(s[k])
    ensures r != [] ==> !IsSpace(r[0])
  {
    if |s| > 0 && IsSpace(s[0]) then StripLeft(s[1..]) else s
  }

  /** `s.rstrip()`: drops trailing whitespace. */
  function StripRight(s: string): (r: string)
    ensures |r| <= |s| && r == s[..|r|]
    ensures forall k :: |r| <= k < |s| ==> IsSpace(s[k])
    ensures r != [] ==> !IsSpace(r[|r| - 1])
  {
    if |s| > 0 && IsSpace(s[|s| - 1]) then StripRight(s[..|s| - 1]) else s
  }

  /** `s.strip()`: the longest infix that neither starts nor ends with whitespace,
      after removing only whitespace on both sides. */
  function Strip(s: string): (r: string)
    ensures exists a, b ::
              && 0 <= a <= b <= |s| && r == s[a..b]
              && (forall k :: 0 <= k < a ==> IsSpace(s[k]))
              && (forall k :: b <= k < |s| ==> IsSpace(s[k]))
    ensures r != [] ==> !IsSpace(r[0]) && !IsSpace(r[|r| - 1])
  {
    var left := StripLeft(s);
    var r := StripRight(left);
    var a := |s| - |left|;
    assert r == s[a..a + |r|];
    r
  }

  /** ASCII case folding of one character, as `str.lower()` does on ASCII. */
  function LowerChar(c: char): char {
    if 'A' <= c <= 'Z' then (c as int + 32) as char else c
  }

  /** `s.lower()` on ASCII text. */
  function Lower(s: string): (r: string)
    ensures |r| == |s|
  {
    seq(|s|, k requires 0 <= k < |s| => LowerChar(s[k]))
  }

  lemma LowerKeepsUnderscores(s: string)
    ensures forall k :: 0 <= k < |s| ==> (Lower(s)[k] == '_' <==> s[k] == '_')
  {
  }

  function Digit(d: nat): char
    requires d < 10
  {
    "0123456789"[d]
  }

  predicate IsDigit(c: char) {
    '0' <= c <= '9'
  }

  function DigitValue(c: char): nat
    requires IsDigit(c)
  {
    c as int - '0' as int
  }

  /** `str(n)` for a non-negative integer: its decimal digits, no leading zero. */
  function Decimal(n: nat): (r: string)
    ensures |r| > 0
    ensures forall k :: 0 <= k < |r| ==> IsDigit(r[k])
    ensures |r| > 1 ==> r[0] != '0'
  {
    if n < 10 then [Digit(n)] else Decimal(n / 10) + [Digit(n % 10)]
  }

  /** Reads decimal digits back, the partner of Decimal. */
  function ParseDecimal(s: string): nat
    requires forall k :: 0 <= k < |s| ==> IsDigit(s[k])
  {
    if s == [] then 0 else ParseDecimal(s[..|s| - 1]) * 10 + DigitValue(s[|s| - 1])
  }

  lemma {:induction false} DecimalRoundTrip(n: nat)
    ensures ParseDecimal(Decimal(n)) == n
  {
    if n >= 10 {
      var s := Decimal(n);
      assert s[..|s| - 1] == Decimal(n / 10);
      DecimalRoundTrip(n / 10);
    }
  }

  /** Different numbers have different decimal names. */
  lemma DecimalInjective(m: nat, n: nat)
    ensures Decimal(m) == Decimal(n) ==> m == n
  {
    DecimalRoundTrip(m);
    DecimalRoundTrip(n);
  }

  predicate SeparatorAt(s: string, k: nat)
    requires k + 2 <= |s|
  {
    s[k] == '_' && s[k + 1] == '_'
  }

  predicate HasSeparator(s: string) {
    exists k :: 0 <= k && k + 2 <= |s| && SeparatorAt(s, k)
  }

  /** The first position at or after `from` where "__" starts. */
  function FindSeparator(s: string, from: nat): (r: Option<nat>)
    ensures r.Some? ==> from <= r.value && r.value + 2 <= |s| && SeparatorAt(s, r.value)
    ensures r.Some? ==> forall k :: from <= k < r.value ==> !SeparatorAt(s, k)
    ensures r.None? ==> forall k :: from <= k && k + 2 <= |s| ==> !SeparatorAt(s, k)
    decreases |s| - from
  {
    if from + 2 > |s| then None
    else if SeparatorAt(s, from) then Some(from)
    else FindSeparator(s, from + 1)
  }

  /** `key, label = s.split('__', 1)`: cut at the first "__"; None where Python's
      unpacking raises ValueError because there is no "__". */
  function Split(s: string): (r: Option<(string, string)>)
    ensures r.Some? ==> s == r.value.0 + "__" + r.value.1
    ensures r.Some? ==> forall k :: 0 <= k < |r.value.0| ==> !SeparatorAt(s, k)
    ensures r.None? <==> !HasSeparator(s)
  {
    match FindSeparator(s, 0)
    case None => None
    case Some(k) =>
      assert s == s[..k] + "__" + s[k + 2..];
      Some((s[..k], s[k + 2..]))
  }

  /** Joining a key without underscores to any label splits back into the same two parts. */
  lemma SplitJoin(key: string, rest: string)
    requires forall k :: 0 <= k < |key| ==> key[k] != '_'
    ensures Split(key + "__" + rest) == Some((key, rest))
  {
    var s := key + "__" + rest;
    assert SeparatorAt(s, |key|);
    var r := Split(s);
    assert r.Some?;
    var k := |r.value.0|;
    assert k == |key|;
    assert r.value.0 == s[..k] == key;
    assert r.value.1 == s[k + 2..] == rest;
  }

  /** `sep.join(xs)`. */
  function Join(xs: seq<string>, sep: string): string {
    if |xs| == 0 then "" else if |xs| == 1 then xs[0] else xs[0] + sep + Join(xs[1..], sep)
  }

  /** `list(reversed(xs))`. */
  function Reverse<T>(xs: seq<T>): (r: seq<T>)
    ensures |r| == |xs|
  {
    if xs == [] then [] else Reverse(xs[1..]) + [xs[0]]
  }

  lemma {:induction false} ReverseAt<T>(xs: seq<T>, k: nat)
    requires k < |xs|
    ensures Reverse(xs)[k] == xs[|xs| - 1 - k]
  {
    if k < |xs| - 1 {
      ReverseAt(xs[1..], k);
    }
  }

  lemma {:induction false} ReverseAppend<T>(a: seq<T>, b: seq<T>)
    ensures Reverse(a + b) == Reverse(b) + Reverse(a)
  {
    if a == [] {
      assert a + b == b;
    } else {
      assert (a + b)[1..] == a[1..] + b;
      ReverseAppend(a[1..], b);
    }
  }

  lemma {:induction false} ReverseReverse<T>(a: seq<T>)
    ensures Reverse(Reverse(a)) == a
  {
    if a != [] {
      ReverseReverse(a[1..]);
      ReverseAppend(Reverse(a[1..]), [a[0]]);
    }
  }
}
