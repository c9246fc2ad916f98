/** String helpers used by the writer and the reader: Python's `str(i)` for a
    non-negative int, `s.rindex(c)`, `s.split(sep)[0]` and `s.endswith(t)`. */
module Text {

  datatype Option<T> = None | Some(value: T)

  /** The digit character for 0 <= d < 10. */
  function DigitChar(d: nat): (c: char)
    requires d < 10
    ensures '0' <= c <= '9' && c as int - '0' as int == d
  {
    ['0', '1', '2', '3', '4', '5', '6', '7', '8', '9'][d]
  }

  predicate IsDigit(c: char) { '0' <= c <= '9' }

  predicate AllDigits(s: string) { forall k :: 0 <= k < |s| ==> IsDigit(s[k]) }

  /** Python's `str(n)` for n >= 0: decimal digits, no sign, no leading zero. */
  function NatToString(n: nat): (s: string)
    ensures |s| >= 1 && AllDigits(s)
    ensures |s| > 1 ==> s[0] != '0'
  {
    if n < 10 then [DigitChar(n)] else NatToString(n / 10) + [DigitChar(n % 10)]
  }

  /** The value of a string of decimal digits: the inverse of NatToString. */
  function DigitsValue(s: string): nat
    requires AllDigits(s)
  {
    if |s| == 0 then 0 else DigitsValue(s[..|s| - 1]) * 10 + (s[|s| - 1] as int - '0' as int)
  }

  /** `str` can be read back: the decimal text of n denotes n. */
  lemma {:induction false} DigitsValueOfNatToString(n: nat)
    ensures DigitsValue(NatToString(n)) == n
  {
    var s := NatToString(n);
    if n >= 10 {
      DigitsValueOfNatToString(n / 10);
      assert s[..|s| - 1] == NatToString(n / 10);
    }
  }

  /** Distinct indices are written as distinct strings. */
  lemma NatToStringInjective(a: nat, b: nat)
    requires NatToString(a) == NatToString(b)
    ensures a == b
  {
    DigitsValueOfNatToString(a);
    DigitsValueOfNatToString(b);
  }

  /** A name built around a printed index: `p + str(k) + q`. */
  function IndexedName(p: string, k: nat, q: string): string
  {
    p + NatToString(k) + q
  }

  lemma MiddleDetermined(p: string, m1: string, m2: string, q: string)
    requires p + m1 + q == p + m2 + q
    ensures m1 == m2
  {
    var s := p + m1 + q;
    assert |m1| == |m2|;
    assert m1 == s[|p|..|p| + |m1|];
    assert m2 == (p + m2 + q)[|p|..|p| + |m2|];
  }

  /** Names that differ only in the index are different names. */
  lemma IndexedNameInjective(p: string, a: nat, b: nat, q: string)
    requires IndexedName(p, a, q) == IndexedName(p, b, q)
    ensures a == b
  {
    MiddleDetermined(p, NatToString(a), NatToString(b), q);
    NatToStringInjective(a, b);
  }

  /** The set of names `p + str(k) + q` for lo <= k < hi. */
  function IndexedNames(p: string, q: string, lo: nat, hi: nat): set<string>
    decreases hi
  {
    if hi <= lo then {} else IndexedNames(p, q, lo, hi - 1) + {IndexedName(p, hi - 1, q)}
  }

  lemma {:induction false} IndexedNamesHas(p: string, q: string, lo: nat, hi: nat, k: nat)
    requires lo <= k < hi
    ensures IndexedName(p, k, q) in IndexedNames(p, q, lo, hi)
    decreases hi
  {
    if k < hi - 1 {
      IndexedNamesHas(p, q, lo, hi - 1, k);
    }
  }

  lemma {:induction false} IndexedNamesOnly(p: string, q: string, lo: nat, hi: nat, k: nat)
    requires IndexedName(p, k, q) in IndexedNames(p, q, lo, hi)
    ensures lo <= k < hi
    decreases hi
  {
    if hi > lo {
      if IndexedName(p, k, q) == IndexedName(p, hi - 1, q) {
        IndexedNameInjective(p, k, hi - 1, q);
      } else {
        IndexedNamesOnly(p, q, lo, hi - 1, k);
      }
    }
  }

  lemma {:induction false} IndexedNamesForm(p: string, q: string, lo: nat, hi: nat, name: string)
    requires name in IndexedNames(p, q, lo, hi)
    ensures exists k: nat :: lo <= k < hi && name == IndexedName(p, k, q)
    decreases hi
  {
    if name != IndexedName(p, hi - 1, q) {
      IndexedNamesForm(p, q, lo, hi - 1, name);
    }
  }

  /** The hi - lo indexed names are pairwise distinct, so there are hi - lo of them. */
  lemma {:induction false} IndexedNamesCount(p: string, q: string, lo: nat, hi: nat)
    requires lo <= hi
    ensures |IndexedNames(p, q, lo, hi)| == hi - lo
    decreases hi
  {
    if hi > lo {
      IndexedNamesCount(p, q, lo, hi - 1);
      if IndexedName(p, hi - 1, q) in IndexedNames(p, q, lo, hi - 1) {
        IndexedNamesOnly(p, q, lo, hi - 1, hi - 1);
      }
    }
  }

  /** A finite set holding the names for lo <= k < hi has room for all of them. */
  lemma IndexedNamesBound(p: string, q: string, lo: nat, hi: nat, present: set<string>)
    requires lo <= hi
    requires IndexedNames(p, q, lo, hi) <= present
    ensures hi - lo <= |present|
  {
    IndexedNamesCount(p, q, lo, hi);
    SubsetCardinality(IndexedNames(p, q, lo, hi), present);
  }

  lemma SubsetCardinality<T>(a: set<T>, b: set<T>)
    requires a <= b
    ensures |a| <= |b|
  {
    assert b == a + (b - a);
  }

  /** Python's `s.rindex(c)`: the last position of c, None where Python raises ValueError. */
  function RIndex(s: string, c: char): (r: Option<nat>)
    ensures r.Some? ==> r.value < |s| && s[r.value] == c && c !in s[r.value + 1..]
    ensures r.None? <==> c !in s
  {
    if |s| == 0 then None
    else if s[|s| - 1] == c then Some(|s| - 1)
    else
      var r := RIndex(s[..|s| - 1], c);
      assert s == s[..|s| - 1] + [s[|s| - 1]];
      r
  }

  /** The last c of `a + [c] + b` is the one between them when b has none. */
  lemma RIndexOfJoin(a: string, c: char, b: string)
    requires c !in b
    ensures RIndex(a + [c] + b, c) == Some(|a|)
  {
    var s := a + [c] + b;
    assert s[|a|] == c;
    assert s[|a| + 1..] == b;
  }

  /** Python's `s.split(sep)[0]` for a one-character separator: everything before the first sep. */
  function FirstField(s: string, sep: char): (r: string)
    ensures sep !in r
    ensures r <= s
    ensures |r| < |s| ==> s[|r|] == sep
  {
    if |s| == 0 || s[0] == sep then [] else [s[0]] + FirstField(s[1..], sep)
  }

  predicate EndsWith(s: string, suffix: string)
  {
    |suffix| <= |s| && s[|s| - |suffix|..] == suffix
  }

  lemma EndsWithConcat(a: string, b: string)
    ensures EndsWith(a + b, b)
  {
    assert (a + b)[|a|..] == b;
  }

  lemma EndsWithTrans(s: string, t: string, u: string)
    requires EndsWith(s, t) && EndsWith(t, u)
    ensures EndsWith(s, u)
  {
    assert s[|s| - |u|..] == s[|s| - |t|..][|t| - |u|..];
  }

  /** Text whose last character differs from a suffix's last character does not end in it. */
  lemma DifferentLast(s: string, u: string)
    requires |u| > 0 && (|s| == 0 || s[|s| - 1] != u[|u| - 1])
    ensures !EndsWith(s, u)
  {
    if |u| <= |s| {
      assert s[|s| - |u|..][|u| - 1] == s[|s| - 1];
    }
  }

  /** Text ending in a non-empty suffix ends in that suffix's last character. */
  lemma EndsWithLast(s: string, u: string)
    requires EndsWith(s, u) && |u| > 0
    ensures s[|s| - 1] == u[|u| - 1]
  {
    assert s[|s| - |u|..][|u| - 1] == s[|s| - 1];
  }
}
