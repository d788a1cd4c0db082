/** Character classes and string helpers, restricted to ASCII. */
module Text {

  /** `\d` of Python's `re` and the digits `int()` accepts. */
  predicate IsDigit(c: char) {
    '0' <= c <= '9'
  }

  /** Python's `str.isspace()` (and so `\s` and the strip done by `float()`) on ASCII:
      tab, line feed, vertical tab, form feed, carriage return, the four
      information separators 0x1C..0x1F and the space. */
  predicate IsSpace(c: char) {
    (9 <= c as int <= 13) || (28 <= c as int <= 32)
  }

  /** The end of the maximal run of digits that starts at i. */
  function DigitsEnd(s: string, i: nat): (r: nat)
    requires i <= |s|
    ensures i <= r <= |s|
    ensures forall k :: i <= k < r ==> IsDigit(s[k])
    ensures r == |s| || !IsDigit(s[r])
    decreases |s| - i
  {
    if i < |s| && IsDigit(s[i]) then DigitsEnd(s, i + 1) else i
  }

  /** The end of the maximal run of whitespace that starts at i. */
  function SpacesEnd(s: string, i: nat): (r: nat)
    requires i <= |s|
    ensures i <= r <= |s|
    ensures forall k :: i <= k < r ==> IsSpace(s[k])
    ensures r == |s| || !IsSpace(s[r])
    decreases |s| - i
  {
    if i < |s| && IsSpace(s[i]) then SpacesEnd(s, i + 1) else i
  }

  /** A run is determined by its start: any end with the two properties above is DigitsEnd. */
  lemma DigitsEndIs(s: string, i: nat, k: nat)
    requires i <= k <= |s|
    requires forall j :: i <= j < k ==> IsDigit(s[j])
    requires k == |s| || !IsDigit(s[k])
    ensures DigitsEnd(s, i) == k
  {
  }

  lemma SpacesEndIs(s: string, i: nat, k: nat)
    requires i <= k <= |s|
    requires forall j :: i <= j < k ==> IsSpace(s[j])
    requires k == |s| || !IsSpace(s[k])
    ensures SpacesEnd(s, i) == k
  {
  }

  function DigitValue(c: char): nat
    requires IsDigit(c)
  {
    c as int - '0' as int
  }

  function DigitChar(d: nat): (c: char)
    requires d < 10
    ensures IsDigit(c) && DigitValue(c) == d
  {
    ('0' as int + d) as char
  }

  /** The number a string of decimal digits denotes, leading zeros allowed, as `int()` reads it. */
  function DigitsValue(d: string): nat
    requires forall k :: 0 <= k < |d| ==> IsDigit(d[k])
  {
    if |d| == 0 then 0 else 10 * DigitsValue(d[..|d| - 1]) + DigitValue(d[|d| - 1])
  }

  function Pow10(n: nat): (r: nat)
    ensures r >= 1
  {
    if n == 0 then 1 else 10 * Pow10(n - 1)
  }

  /** The shortest decimal spelling of n, as `str(n)` prints it. */
  function NatToDigits(n: nat): (r: string)
    ensures |r| > 0
    ensures forall k :: 0 <= k < |r| ==> IsDigit(r[k])
    ensures DigitsValue(r) == n
    ensures n > 0 ==> r[0] != '0'
  {
    if n < 10 then [DigitChar(n)]
    else
      var r := NatToDigits(n / 10) + [DigitChar(n % 10)];
      assert r[..|r| - 1] == NatToDigits(n / 10);
      r
  }

  /** The first position of c in s. */
  function IndexOf(s: string, c: char): (k: nat)
    requires c in s
    ensures k < |s| && s[k] == c && c !in s[..k]
  {
    if s[0] == c then 0
    else
      var k := 1 + IndexOf(s[1..], c);
      assert s[..k] == [s[0]] + s[1..][..k - 1];
      k
  }

  /** The last position of c in s, or -1 when there is none (Python's `str.rfind`). */
  function LastIndexOf(s: string, c: char): (k: int)
    ensures -1 <= k < |s|
    ensures k >= 0 ==> s[k] == c
    ensures forall j :: k < j < |s| ==> s[j] != c
  {
    if |s| == 0 then -1
    else if s[|s| - 1] == c then |s| - 1
    else LastIndexOf(s[..|s| - 1], c)
  }

  /** A position holding c (or -1) with no c after it is the last position of c. */
  lemma LastIndexOfIs(s: string, c: char, k: int)
    requires -1 <= k < |s|
    requires k >= 0 ==> s[k] == c
    requires forall j :: k < j < |s| ==> s[j] != c
    ensures LastIndexOf(s, c) == k
  {
  }

  /** Appending text without c leaves the last position of c where it was. */
  lemma LastIndexOfAppend(a: string, b: string, c: char)
    requires c !in b
    ensures LastIndexOf(a + b, c) == LastIndexOf(a, c)
  {
    var k := LastIndexOf(a, c);
    var s := a + b;
    assert forall j :: k < j < |s| ==> s[j] != c by {
      forall j | k < j < |s|
        ensures s[j] != c
      {
        if j >= |a| {
          assert s[j] == b[j - |a|];
        }
      }
    }
    LastIndexOfIs(s, c, k);
  }

  /** In `p + [c] + n` with no c in n, the last c is the one after p. */
  lemma LastIndexOfSeparator(p: string, c: char, n: string)
    requires c !in n
    ensures LastIndexOf(p + [c] + n, c) == |p|
  {
    LastIndexOfAppend(p + [c], n, c);
  }

  /** Splitting at the last c is unambiguous: `p + [c] + n` with no c in n determines p and n. */
  lemma SeparatorUnique(p1: string, n1: string, p2: string, n2: string, c: char)
    requires c !in n1 && c !in n2
    requires p1 + [c] + n1 == p2 + [c] + n2
    ensures p1 == p2 && n1 == n2
  {
    var s := p1 + [c] + n1;
    LastIndexOfSeparator(p1, c, n1);
    LastIndexOfSeparator(p2, c, n2);
    assert p1 == s[..|p1|] && p2 == s[..|p2|];
    assert n1 == s[|p1| + 1..] && n2 == s[|p2| + 1..];
  }

  /** A position holding c with no c before it is the first position of c. */
  lemma IndexOfIs(s: string, c: char, k: nat)
    requires k < |s| && s[k] == c && c !in s[..k]
    ensures IndexOf(s, c) == k
  {
  }

  /** `sep.join(parts)` for a single-character separator. */
  function JoinWith(parts: seq<string>, sep: char): string
    requires |parts| > 0
  {
    if |parts| == 1 then parts[0] else parts[0] + [sep] + JoinWith(parts[1..], sep)
  }

  /** Python's `s.split(sep)` for a single-character separator. */
  function Split(s: string, sep: char): (parts: seq<string>)
    ensures |parts| > 0
    ensures forall i :: 0 <= i < |parts| ==> sep !in parts[i]
    ensures JoinWith(parts, sep) == s
    decreases |s|
  {
    if sep !in s then [s]
    else
      var k := IndexOf(s, sep);
      var rest := Split(s[k + 1..], sep);
      var parts := [s[..k]] + rest;
      assert parts[1..] == rest;
      assert s == s[..k] + [sep] + s[k + 1..];
      parts
  }

  /** Split yields one more part than there are separators. */
  lemma {:induction false} SplitLength(s: string, sep: char)
    ensures |Split(s, sep)| == multiset(s)[sep] + 1
    decreases |s|
  {
    if sep in s {
      var k := IndexOf(s, sep);
      var a, b := s[..k], s[k + 1..];
      assert Split(s, sep) == [a] + Split(b, sep);
      SplitLength(b, sep);
      assert s == a + ([sep] + b);
      assert multiset(a)[sep] == 0;
      assert multiset([sep] + b) == multiset{sep} + multiset(b);
    } else {
      assert multiset(s)[sep] == 0;
    }
  }

  /** The parts of a split are the only separator-free parts that join back to s. */
  lemma {:induction false} SplitUnique(s: string, sep: char, parts: seq<string>)
    requires |parts| > 0
    requires forall i :: 0 <= i < |parts| ==> sep !in parts[i]
    requires JoinWith(parts, sep) == s
    ensures Split(s, sep) == parts
    decreases |parts|
  {
    if |parts| == 1 {
      assert sep !in s;
    } else {
      var tail := JoinWith(parts[1..], sep);
      assert s == parts[0] + [sep] + tail;
      assert s[|parts[0]|] == sep;
      assert sep in s;
      var k := |parts[0]|;
      assert s[..k] == parts[0];
      IndexOfIs(s, sep, k);
      assert s[k + 1..] == tail;
      SplitUnique(tail, sep, parts[1..]);
      assert Split(s, sep) == [s[..k]] + Split(tail, sep);
    }
  }

  /** `p` is a prefix of `s` (Python's `s.startswith(p)`). */
  predicate StartsWith(s: string, p: string) {
    |p| <= |s| && s[..|p|] == p
  }

  /** Python's `sub in s`. */
  predicate Contains(s: string, sub: string)
    decreases |s|
  {
    StartsWith(s, sub) || (|s| > 0 && Contains(s[1..], sub))
  }

  /** sub occurs in s starting at position i. */
  ghost predicate OccursAt(s: string, sub: string, i: int) {
    0 <= i && i + |sub| <= |s| && s[i..i + |sub|] == sub
  }

  /** Contains holds exactly when sub occurs at some position of s. */
  lemma {:induction false} ContainsIff(s: string, sub: string)
    ensures Contains(s, sub) <==> exists i :: OccursAt(s, sub, i)
    decreases |s|
  {
    if StartsWith(s, sub) {
      assert s[0..|sub|] == s[..|sub|];
      assert OccursAt(s, sub, 0);
    }
    if |s| > 0 {
      ContainsIff(s[1..], sub);
      if Contains(s[1..], sub) {
        var i :| OccursAt(s[1..], sub, i);
        assert s[i + 1..i + 1 + |sub|] == s[1..][i..i + |sub|];
        assert OccursAt(s, sub, i + 1);
      }
      if i :| OccursAt(s, sub, i) {
        if i > 0 {
          assert s[1..][i - 1..i - 1 + |sub|] == s[i..i + |sub|];
          assert OccursAt(s[1..], sub, i - 1);
        } else {
          assert s[..|sub|] == s[i..i + |sub|];
        }
      }
    }
  }

  /** An occurrence written out as a concatenation is found. */
  lemma ContainsInfix(a: string, sub: string, b: string)
    ensures Contains(a + sub + b, sub)
  {
    var s := a + sub + b;
    assert s[|a|..|a| + |sub|] == sub;
    assert OccursAt(s, sub, |a|);
    ContainsIff(s, sub);
  }

  function LowerChar(c: char): char {
    if 'A' <= c <= 'Z' then (c as int + 32) as char else c
  }

  /** Python's `str.lower()` on ASCII. */
  function Lower(s: string): (r: string)
    ensures |r| == |s|
    ensures forall k :: 0 <= k < |s| ==> r[k] == LowerChar(s[k])
  {
    if |s| == 0 then [] else [LowerChar(s[0])] + Lower(s[1..])
  }

  /** Lower-casing works character by character, so it distributes over concatenation. */
  lemma LowerAppend(a: string, b: string)
    ensures Lower(a + b) == Lower(a) + Lower(b)
  {
  }

  /** Lower-casing twice is lower-casing once. */
  lemma LowerIdempotent(s: string)
    ensures Lower(Lower(s)) == Lower(s)
  {
  }

  /** `s.replace(from, to)` for single characters. */
  function ReplaceChar(s: string, from: char, to: char): (r: string)
    ensures |r| == |s|
    ensures forall k :: 0 <= k < |s| ==> r[k] == (if s[k] == from then to else s[k])
  {
    if |s| == 0 then [] else [if s[0] == from then to else s[0]] + ReplaceChar(s[1..], from, to)
  }

  /** Concatenation regrouped, as a step of its own. */
  lemma Regroup(p: string, q: string, r: string)
    ensures p + q + r == p + (q + r)
  {
  }

  /** The last character of p + b is the last character of a non-empty b. */
  lemma LastOfAppend(p: string, b: string)
    requires |b| > 0
    ensures (p + b)[|p + b| - 1] == b[|b| - 1]
  {
  }
}
