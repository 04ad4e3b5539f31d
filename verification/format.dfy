/** Decimal rendering of integers as Go's `%d` verb prints them, and the
    `_`-joined strings (`"%s_%d"`) that the window code builds from them. */
module Format {
  import opened Wrappers

  predicate IsDigit(c: char) {
    '0' <= c <= '9'
  }

  predicate AllDigits(s: string) {
    forall i :: 0 <= i < |s| ==> IsDigit(s[i])
  }

  /** `s` has no underscore, so it can stand right of the last `_` of a key. */
  predicate NoUnderscore(s: string) {
    forall k :: 0 <= k < |s| ==> s[k] != '_'
  }

  predicate StartsWith(s: string, prefix: string) {
    |prefix| <= |s| && s[..|prefix|] == prefix
  }

  predicate EndsWith(s: string, suffix: string) {
    |suffix| <= |s| && s[|s| - |suffix|..] == suffix
  }

  lemma PrefixOf(a: string, b: string)
    ensures StartsWith(a + b, a)
  {
    assert (a + b)[..|a|] == a;
  }

  function DigitChar(d: nat): (c: char)
    requires d < 10
    ensures IsDigit(c)
  {
    ('0' as int + d) as char
  }

  function DigitValue(c: char): (d: nat)
    requires IsDigit(c)
    ensures d < 10 && DigitChar(d) == c
  {
    c as int - '0' as int
  }

  /** The decimal numeral of `n`, most significant digit first. */
  function NatToString(n: nat): (s: string)
    ensures |s| > 0 && AllDigits(s)
    decreases n
  {
    if n < 10 then [DigitChar(n)] else NatToString(n / 10) + [DigitChar(n % 10)]
  }

  /** Reads a numeral back; the reference inverse of NatToString. */
  function ParseNat(s: string): nat
    requires AllDigits(s)
    decreases |s|
  {
    if |s| == 0 then 0 else ParseNat(s[..|s| - 1]) * 10 + DigitValue(s[|s| - 1])
  }

  lemma {:induction false} ParseNatInverts(n: nat)
    ensures ParseNat(NatToString(n)) == n
    decreases n
  {
    if n >= 10 {
      var s := NatToString(n);
      assert s[..|s| - 1] == NatToString(n / 10);
      ParseNatInverts(n / 10);
    }
  }

  /** Go's `%d`: a minus sign for negative values, then the digits of the magnitude. */
  function IntToString(i: int): (s: string)
    ensures |s| > 0
    ensures NoUnderscore(s)
  {
    if i < 0 then "-" + NatToString(-i) else NatToString(i)
  }

  /** Reads an optionally signed numeral; None for anything else. */
  function ParseInt(s: string): Option<int> {
    if |s| > 1 && s[0] == '-' && AllDigits(s[1..]) then Some(0 - ParseNat(s[1..]) as int)
    else if |s| > 0 && AllDigits(s) then Some(ParseNat(s))
    else None
  }

  lemma IntToStringRoundTrip(i: int)
    ensures ParseInt(IntToString(i)) == Some(i)
  {
    var s := IntToString(i);
    if i < 0 {
      assert s[1..] == NatToString(-i);
      ParseNatInverts(-i);
    } else {
      ParseNatInverts(i);
    }
  }

  /** Distinct integers print differently. */
  lemma IntToStringInjective(a: int, b: int)
    ensures IntToString(a) == IntToString(b) <==> a == b
  {
    IntToStringRoundTrip(a);
    IntToStringRoundTrip(b);
  }

  /** `a + "_" + b`, the shape of `fmt.Sprintf("%s_%d", …)`. */
  function Join(a: string, b: string): string {
    a + "_" + b
  }

  /** Index of the last underscore in `s`, or -1 when there is none. */
  function LastUnderscore(s: string): (i: int)
    ensures -1 <= i < |s|
    ensures i >= 0 ==> s[i] == '_'
    decreases |s|
  {
    if |s| == 0 then -1
    else if s[|s| - 1] == '_' then |s| - 1
    else LastUnderscore(s[..|s| - 1])
  }

  /** Splits `s` at its last underscore; the inverse of Join when the right part has none. */
  function SplitLast(s: string): Option<(string, string)> {
    var i := LastUnderscore(s);
    if i < 0 then None else Some((s[..i], s[i + 1..]))
  }

  lemma {:induction false} LastUnderscoreOfJoin(a: string, b: string)
    requires NoUnderscore(b)
    ensures LastUnderscore(Join(a, b)) == |a|
    decreases |b|
  {
    var s := Join(a, b);
    if |b| > 0 {
      var b' := b[..|b| - 1];
      assert s[..|s| - 1] == Join(a, b');
      LastUnderscoreOfJoin(a, b');
    }
  }

  lemma JoinSplitRoundTrip(a: string, b: string)
    requires NoUnderscore(b)
    ensures SplitLast(Join(a, b)) == Some((a, b))
  {
    LastUnderscoreOfJoin(a, b);
    var s := Join(a, b);
    assert s[..|a|] == a;
    assert s[|a| + 1..] == b;
  }

  /** Joining an arbitrary string with an underscore-free one loses nothing. */
  lemma JoinInjective(a1: string, b1: string, a2: string, b2: string)
    requires NoUnderscore(b1)
    requires NoUnderscore(b2)
    ensures Join(a1, b1) == Join(a2, b2) <==> a1 == a2 && b1 == b2
  {
    JoinSplitRoundTrip(a1, b1);
    JoinSplitRoundTrip(a2, b2);
  }

  /** Concatenation of a sequence of strings, left to right. */
  function Concat(parts: seq<string>): string {
    if parts == [] then "" else Concat(parts[..|parts| - 1]) + parts[|parts| - 1]
  }

  /** Concatenation distributes over splitting the parts. */
  lemma {:induction false} ConcatAppend(a: seq<string>, b: seq<string>)
    ensures Concat(a + b) == Concat(a) + Concat(b)
    decreases |b|
  {
    if b != [] {
      var b' := b[..|b| - 1];
      assert (a + b)[..|a + b| - 1] == a + b';
      ConcatAppend(a, b');
    } else {
      assert a + b == a;
    }
  }

  /** Part `i` appears, whole, between the parts before it and those after it. */
  lemma ConcatSplit(parts: seq<string>, i: nat)
    requires i < |parts|
    ensures Concat(parts) == Concat(parts[..i]) + parts[i] + Concat(parts[i + 1..])
  {
    var a, x, b := parts[..i], parts[i], parts[i + 1..];
    SplitAt(parts, i);
    ConcatAppend(a + [x], b);
    ConcatAppend(a, [x]);
    ConcatSingle(x);
  }

  lemma SplitAt<T>(s: seq<T>, i: nat)
    requires i < |s|
    ensures s == s[..i] + [s[i]] + s[i + 1..]
  {
  }

  lemma ConcatSingle(x: string)
    ensures Concat([x]) == x
  {
    assert [x][..0] == [];
  }
}
