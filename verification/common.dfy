/** Small string and option utilities shared by the bookmark-tidying model.

    JavaScript's "truthiness" of optional strings, ASCII case folding, substring
    search, joining and decimal rendering of status codes are defined once here. */
module Common {

  /** A value that may be missing (`undefined` / `null` in the extension scripts). */
  datatype Option<+T> = None | Some(value: T)

  /** A JavaScript string that is present and not empty, i.e. truthy. */
  predicate Truthy(o: Option<string>) {
    o.Some? && o.value != ""
  }

  predicate StartsWith(s: string, prefix: string) {
    prefix <= s
  }

  predicate EndsWith(s: string, suffix: string) {
    |suffix| <= |s| && s[|s| - |suffix|..] == suffix
  }

  lemma EndsWithTransitive(s: string, a: string, b: string)
    requires EndsWith(s, a) && EndsWith(a, b)
    ensures EndsWith(s, b)
  {
    assert s[|s| - |b|..] == s[|s| - |a|..][|a| - |b|..];
  }

  /** Concatenation regrouped (kept as a separate fact: stated inline next to
      recursive functions over the same sequences it makes proofs expensive). */
  lemma Regroup<T>(a: seq<T>, b: seq<T>, c: seq<T>)
    ensures a + b + c == a + (b + c)
  {
  }

  /** `s.includes(part)`: `part` occurs somewhere in `s`. */
  predicate Contains(s: string, part: string)
    decreases |s|
  {
    part <= s || (|s| > 0 && Contains(s[1..], part))
  }

  /** An occurrence of `part` at position `i` is an occurrence in the sense of `Contains`. */
  lemma {:induction false} ContainsAt(s: string, part: string, i: nat)
    requires i + |part| <= |s| && s[i..i + |part|] == part
    ensures Contains(s, part)
    decreases i
  {
    if i == 0 {
      assert s[..|part|] == part;
    } else {
      assert s[1..][i - 1..i - 1 + |part|] == s[i..i + |part|];
      ContainsAt(s[1..], part, i - 1);
    }
  }

  /** Every string contains its own infixes. */
  lemma ContainsInfix(a: string, part: string, b: string)
    ensures Contains(a + part + b, part)
  {
    var s := a + part + b;
    assert s[|a|..|a| + |part|] == part;
    ContainsAt(s, part, |a|);
  }

  /** `part` occurs in `s` starting at position `i`. */
  predicate OccursAt(s: string, part: string, i: nat) {
    i + |part| <= |s| && s[i..i + |part|] == part
  }

  /** An occurrence in the sense of `Contains` has a position. */
  lemma {:induction false} ContainsWitness(s: string, part: string)
    requires Contains(s, part)
    ensures exists i: nat :: OccursAt(s, part, i)
    decreases |s|
  {
    if part <= s {
      assert OccursAt(s, part, 0);
    } else {
      ContainsWitness(s[1..], part);
      var i: nat :| OccursAt(s[1..], part, i);
      assert s[i + 1..i + 1 + |part|] == s[1..][i..i + |part|];
      assert OccursAt(s, part, i + 1);
    }
  }

  /** A string contains whatever its infixes contain. */
  lemma ContainsTransitive(s: string, a: string, b: string)
    requires Contains(s, a) && Contains(a, b)
    ensures Contains(s, b)
  {
    ContainsWitness(s, a);
    var i: nat :| OccursAt(s, a, i);
    ContainsWitness(a, b);
    var j: nat :| OccursAt(a, b, j);
    var x, y := s[i + j..i + j + |b|], a[j..j + |b|];
    forall k | 0 <= k < |b| ensures x[k] == y[k] {
      assert s[i + j + k] == s[i..i + |a|][j + k];
    }
    assert x == y;
    ContainsAt(s, b, i + j);
  }

  /** ASCII lower-casing of one character; every other character is kept. */
  function LowerChar(c: char): char {
    if 'A' <= c <= 'Z' then (c as int - 'A' as int + 'a' as int) as char else c
  }

  /** `String.prototype.toLowerCase` restricted to the ASCII letters. */
  function ToLower(s: string): (r: string)
    ensures |r| == |s|
    ensures forall i :: 0 <= i < |s| ==> r[i] == LowerChar(s[i])
  {
    seq(|s|, i requires 0 <= i < |s| => LowerChar(s[i]))
  }

  /** `xs.join(sep)`. */
  function Join(xs: seq<string>, sep: string): string {
    if |xs| == 0 then ""
    else if |xs| == 1 then xs[0]
    else xs[0] + sep + Join(xs[1..], sep)
  }

  predicate IsDigit(c: char) {
    '0' <= c <= '9'
  }

  function DigitChar(d: nat): (c: char)
    requires d < 10
    ensures IsDigit(c)
  {
    ('0' as int + d) as char
  }

  function DigitValue(c: char): (d: nat)
    requires IsDigit(c)
    ensures d < 10
  {
    c as int - '0' as int
  }

  /** The decimal rendering JavaScript's template literals give a non-negative integer. */
  function NatToString(n: nat): (s: string)
    ensures |s| > 0
    ensures forall i :: 0 <= i < |s| ==> IsDigit(s[i])
  {
    if n < 10 then [DigitChar(n)] else NatToString(n / 10) + [DigitChar(n % 10)]
  }

  /** Reads back a non-empty string of decimal digits; None for anything else. */
  function ParseDecimal(s: string): Option<nat>
  {
    if |s| == 0 || !IsDigit(s[|s| - 1]) then None
    else if |s| == 1 then Some(DigitValue(s[0]))
    else match ParseDecimal(s[..|s| - 1])
      case None => None
      case Some(high) => Some(high * 10 + DigitValue(s[|s| - 1]))
  }

  /** Reading back the rendering of a number gives the number. */
  lemma {:induction false} ParseNatToString(n: nat)
    ensures ParseDecimal(NatToString(n)) == Some(n)
  {
    var s := NatToString(n);
    if n >= 10 {
      ParseNatToString(n / 10);
      assert s[..|s| - 1] == NatToString(n / 10);
    }
  }

  /** `s.filter(keep)`: the elements of `s` that satisfy `keep`, in order. */
  function Filter<T(!new)>(s: seq<T>, keep: T -> bool): (r: seq<T>)
    ensures |r| <= |s|
    ensures forall x :: x in r <==> x in s && keep(x)
  {
    if |s| == 0 then [] else (if keep(s[0]) then [s[0]] else []) + Filter(s[1..], keep)
  }

  /** Filtering distributes over concatenation, so it keeps the relative order. */
  lemma {:induction false} FilterAppend<T(!new)>(a: seq<T>, b: seq<T>, keep: T -> bool)
    ensures Filter(a + b, keep) == Filter(a, keep) + Filter(b, keep)
    decreases |a|
  {
    if |a| > 0 {
      assert (a + b)[0] == a[0];
      assert (a + b)[1..] == a[1..] + b;
      FilterAppend(a[1..], b, keep);
    } else {
      assert a + b == b;
    }
  }

  /** The test that holds exactly when both `p` and `q` do. */
  function Both<T>(p: T -> bool, q: T -> bool): T -> bool {
    x => p(x) && q(x)
  }

  /** Filtering twice is filtering once by both tests: the same elements, in the same
      order, each as often. */
  lemma {:induction false} FilterTwice<T(!new)>(s: seq<T>, p: T -> bool, q: T -> bool)
    ensures Filter(Filter(s, p), q) == Filter(s, Both(p, q))
    decreases |s|
  {
    if |s| > 0 {
      var head := if p(s[0]) then [s[0]] else [];
      assert Filter(s, p) == head + Filter(s[1..], p);
      FilterAppend(head, Filter(s[1..], p), q);
      FilterTwice(s[1..], p, q);
      if p(s[0]) {
        assert head[1..] == [];
      }
    }
  }

  function Min(a: int, b: int): int {
    if a <= b then a else b
  }
}
