/**
 * String helpers shared by the Python and the TypeScript halves of the system:
 * the two languages' whitespace sets, stripping, slicing with relative indices,
 * joining, ASCII lower-casing, decimal rendering and occurrence counting.
 */
module Strings {

  function Min(a: int, b: int): int { if a <= b then a else b }
  function Max(a: int, b: int): int { if a >= b then a else b }

  /** The characters Python's `str.isspace()` accepts, which `strip` and `rstrip` remove. */
  predicate IsPySpace(c: char) {
    || ('\t' <= c <= '\r')
    || ('\U{1C}' <= c <= ' ')
    || c == '\U{85}' || c == '\U{A0}' || c == '\U{1680}'
    || ('\U{2000}' <= c <= '\U{200A}')
    || c == '\U{2028}' || c == '\U{2029}' || c == '\U{202F}' || c == '\U{205F}' || c == '\U{3000}'
  }

  /** The characters JavaScript's `String.prototype.trim` removes (white space and line terminators). */
  predicate IsJsSpace(c: char) {
    || ('\t' <= c <= '\r')
    || c == ' ' || c == '\U{A0}' || c == '\U{FEFF}' || c == '\U{1680}'
    || ('\U{2000}' <= c <= '\U{200A}')
    || c == '\U{2028}' || c == '\U{2029}' || c == '\U{202F}' || c == '\U{205F}' || c == '\U{3000}'
  }

  predicate AllSpace(s: string, sp: char -> bool) {
    forall i :: 0 <= i < |s| ==> sp(s[i])
  }

  /** The first position at or after `i` whose character does not satisfy `sp`, or `|s|`. */
  function SkipForward(s: string, sp: char -> bool, i: nat): (n: nat)
    requires i <= |s|
    ensures i <= n <= |s|
    decreases |s| - i
  {
    if i == |s| || !sp(s[i]) then i else SkipForward(s, sp, i + 1)
  }

  /** The least `m <= j` such that every character in `[m, j)` satisfies `sp`. */
  function SkipBackward(s: string, sp: char -> bool, j: nat): (m: nat)
    requires j <= |s|
    ensures m <= j
    decreases j
  {
    if j == 0 || !sp(s[j - 1]) then j else SkipBackward(s, sp, j - 1)
  }

  lemma {:induction false} SkipForwardSpec(s: string, sp: char -> bool, i: nat)
    requires i <= |s|
    ensures var n := SkipForward(s, sp, i);
      && i <= n <= |s|
      && (forall k :: i <= k < n ==> sp(s[k]))
      && (n < |s| ==> !sp(s[n]))
    decreases |s| - i
  {
    if i < |s| && sp(s[i]) {
      SkipForwardSpec(s, sp, i + 1);
    }
  }

  lemma {:induction false} SkipBackwardSpec(s: string, sp: char -> bool, j: nat)
    requires j <= |s|
    ensures var m := SkipBackward(s, sp, j);
      && m <= j
      && (forall k :: m <= k < j ==> sp(s[k]))
      && (m > 0 ==> !sp(s[m - 1]))
    decreases j
  {
    if j > 0 && sp(s[j - 1]) {
      SkipBackwardSpec(s, sp, j - 1);
    }
  }

  /** Removes the trailing characters satisfying `sp`. */
  function TrimEnd(s: string, sp: char -> bool): string {
    s[..SkipBackward(s, sp, |s|)]
  }

  /** Removes the leading and trailing characters satisfying `sp`. */
  function Trim(s: string, sp: char -> bool): string {
    TrimEnd(s[SkipForward(s, sp, 0)..], sp)
  }

  /**
   * Trimming keeps a contiguous run of `s` that starts and ends outside `sp`,
   * removing only `sp` characters before and after it, and is empty exactly
   * for all-`sp` input.
   */
  lemma TrimSpec(s: string, sp: char -> bool)
    ensures var r := Trim(s, sp);
      && |r| <= |s|
      && (exists i, j :: 0 <= i <= j <= |s| && r == s[i..j] && AllSpace(s[..i], sp) && AllSpace(s[j..], sp))
      && (r != [] ==> !sp(r[0]) && !sp(r[|r| - 1]))
      && (r == [] <==> AllSpace(s, sp))
  {
    var a := SkipForward(s, sp, 0);
    SkipForwardSpec(s, sp, 0);
    var t := s[a..];
    var m := SkipBackward(t, sp, |t|);
    SkipBackwardSpec(t, sp, |t|);
    assert Trim(s, sp) == s[a..a + m];
    assert AllSpace(s[..a], sp) && AllSpace(s[a + m..], sp) by {
      forall k | a + m <= k < |s| ensures sp(s[k]) {
        assert s[k] == t[k - a];
      }
    }
    if a < |s| {
      assert t[0] == s[a];
      assert 0 < m;
    }
  }

  /** Trimming twice trims no more than trimming once. */
  lemma TrimTwice(s: string, sp: char -> bool)
    ensures Trim(Trim(s, sp), sp) == Trim(s, sp)
  {
    TrimSpec(s, sp);
    var r := Trim(s, sp);
    if r != [] {
      assert SkipForward(r, sp, 0) == 0;
      assert r[0..] == r;
      assert SkipBackward(r, sp, |r|) == |r|;
    }
  }

  /** Right-trimming keeps a prefix whose characters past the cut all satisfy `sp`. */
  lemma TrimEndSpec(s: string, sp: char -> bool)
    ensures var m := SkipBackward(s, sp, |s|);
      && TrimEnd(s, sp) == s[..m]
      && (forall k :: m <= k < |s| ==> sp(s[k]))
  {
    SkipBackwardSpec(s, sp, |s|);
  }

  function PyStrip(s: string): string { Trim(s, IsPySpace) }
  function PyRStrip(s: string): string { TrimEnd(s, IsPySpace) }
  function JsTrim(s: string): string { Trim(s, IsJsSpace) }

  /** Resolves a slice bound the way Python slicing and `String.prototype.slice` do. */
  function ResolveIndex(i: int, n: nat): (k: nat)
    ensures k <= n
  {
    if i < 0 then (if i + n < 0 then 0 else i + n) else if i > n then n else i
  }

  /** `s[a:b]` in Python and `s.slice(a, b)` in JavaScript: equal for a step of one. */
  function Slice(s: string, a: int, b: int): string {
    var i, j := ResolveIndex(a, |s|), ResolveIndex(b, |s|);
    if i < j then s[i..j] else []
  }

  /** `sep.join(parts)` in Python, `parts.join(sep)` in JavaScript. */
  function Join(parts: seq<string>, sep: string): string
    decreases |parts|
  {
    if parts == [] then []
    else if |parts| == 1 then parts[0]
    else parts[0] + sep + Join(parts[1..], sep)
  }

  lemma {:induction false} JoinAppend(parts: seq<string>, p: string, sep: string)
    ensures Join(parts + [p], sep) == if parts == [] then p else Join(parts, sep) + sep + p
    decreases |parts|
  {
    if |parts| > 1 {
      assert (parts + [p])[1..] == parts[1..] + [p];
      JoinAppend(parts[1..], p, sep);
    } else if |parts| == 1 {
      assert (parts + [p])[1..] == [p];
    }
  }

  /** Joining parts that are all non-empty gives "" exactly for no parts. */
  lemma JoinEmpty(parts: seq<string>, sep: string)
    requires forall i :: 0 <= i < |parts| ==> parts[i] != []
    ensures Join(parts, sep) == [] <==> parts == []
  {
    if |parts| > 1 {
      assert Join(parts, sep) == parts[0] + sep + Join(parts[1..], sep);
    }
  }

  /** Joining two non-empty lists joins their two joins. */
  lemma {:induction false} JoinConcat(a: seq<string>, b: seq<string>, sep: string)
    requires a != [] && b != []
    ensures Join(a + b, sep) == Join(a, sep) + sep + Join(b, sep)
    decreases |a|
  {
    if |a| == 1 {
      assert (a + b)[1..] == b;
    } else {
      assert (a + b)[1..] == a[1..] + b;
      JoinConcat(a[1..], b, sep);
    }
  }

  /** Every character of a joined string comes from a part or from the separator. */
  lemma {:induction false} JoinChars(parts: seq<string>, sep: string, c: char)
    requires c in Join(parts, sep)
    ensures c in sep || exists k :: 0 <= k < |parts| && c in parts[k]
    decreases |parts|
  {
    if |parts| > 1 {
      var rest := Join(parts[1..], sep);
      assert Join(parts, sep) == parts[0] + sep + rest;
      if c !in parts[0] && c !in sep {
        assert c in rest;
        JoinChars(parts[1..], sep, c);
        var k :| 0 <= k < |parts[1..]| && c in parts[1..][k];
        assert c in parts[k + 1];
      }
    } else if |parts| == 1 {
      assert c in parts[0];
    }
  }

  /** A character of some part survives the join. */
  lemma {:induction false} JoinKeeps(parts: seq<string>, sep: string, k: nat, c: char)
    requires k < |parts| && c in parts[k]
    ensures c in Join(parts, sep)
    decreases |parts|
  {
    if |parts| > 1 {
      assert Join(parts, sep) == parts[0] + sep + Join(parts[1..], sep);
      if k > 0 {
        assert parts[1..][k - 1] == parts[k];
        JoinKeeps(parts[1..], sep, k - 1, c);
      }
    }
  }

  predicate IsAsciiUpper(c: char) { 'A' <= c <= 'Z' }

  function LowerChar(c: char): (d: char)
    ensures !IsAsciiUpper(d)
  {
    if IsAsciiUpper(c) then (c as int + 32) as char else c
  }

  /** Lower-cases the ASCII letters and leaves every other character alone. */
  function AsciiLower(s: string): (r: string)
    ensures |r| == |s|
    ensures forall i :: 0 <= i < |r| ==> r[i] == LowerChar(s[i])
  {
    seq(|s|, i requires 0 <= i < |s| => LowerChar(s[i]))
  }

  function DigitChar(d: nat): char
    requires d < 10
  {
    ['0', '1', '2', '3', '4', '5', '6', '7', '8', '9'][d]
  }

  /** The decimal rendering of a natural number, as JavaScript's template literals print it. */
  function NatToString(n: nat): (r: string)
    ensures |r| >= 1
    ensures n >= 10 ==> |r| >= 2
    decreases n
  {
    if n < 10 then [DigitChar(n)] else NatToString(n / 10) + [DigitChar(n % 10)]
  }

  /** Distinct numbers render to distinct strings. */
  lemma {:induction false} NatToStringInjective(a: nat, b: nat)
    requires NatToString(a) == NatToString(b)
    ensures a == b
    decreases a
  {
    var s := NatToString(a);
    if a < 10 && b < 10 {
      assert [DigitChar(a)] == [DigitChar(b)];
    } else if a >= 10 && b >= 10 {
      var pa, pb := NatToString(a / 10), NatToString(b / 10);
      assert s == pa + [DigitChar(a % 10)] && s == pb + [DigitChar(b % 10)];
      assert DigitChar(a % 10) == s[|s| - 1] == DigitChar(b % 10);
      assert pa == s[..|s| - 1] == pb;
      NatToStringInjective(a / 10, b / 10);
    }
  }

  /** Concatenation is associative; stated once so that proofs need not rediscover it. */
  lemma AppendAssoc<T>(a: seq<T>, b: seq<T>, c: seq<T>)
    ensures (a + b) + c == a + (b + c)
  {
  }

  /** No element occurs twice. */
  predicate Distinct<T(==)>(s: seq<T>) {
    forall i, j :: 0 <= i < j < |s| ==> s[i] != s[j]
  }

  /** The number of occurrences of `x` in `s`. */
  function Count<T(==)>(s: seq<T>, x: T): nat
    decreases |s|
  {
    if s == [] then 0 else Count(s[..|s| - 1], x) + (if s[|s| - 1] == x then 1 else 0)
  }

  lemma {:induction false} CountPositive<T>(s: seq<T>, x: T)
    ensures Count(s, x) > 0 <==> x in s
    decreases |s|
  {
    if s != [] {
      CountPositive(s[..|s| - 1], x);
      assert s == s[..|s| - 1] + [s[|s| - 1]];
    }
  }

  lemma CountAppend<T>(s: seq<T>, x: T, y: T)
    ensures Count(s + [y], x) == Count(s, x) + (if y == x then 1 else 0)
  {
    assert (s + [y])[..|s|] == s;
  }
}
