/** Shared by every module of the model: optional values, and the few facts about reals
    and string case that more than one engine needs. */
module Prelude {

  datatype Option<+T> = None | Some(value: T)

  function Min(a: real, b: real): (m: real)
    ensures m <= a && m <= b && (m == a || m == b)
  {
    if a <= b then a else b
  }

  function Max(a: real, b: real): (m: real)
    ensures m >= a && m >= b && (m == a || m == b)
  {
    if a >= b then a else b
  }

  function Abs(x: real): (a: real)
    ensures a >= 0.0 && (a == x || a == -x)
  {
    if x < 0.0 then -x else x
  }

  /** 10^d as a real. */
  function Pow10(d: nat): (p: real)
    ensures p >= 1.0
  {
    if d == 0 then 1.0 else 10.0 * Pow10(d - 1)
  }

  /** 10^d as an integer. */
  function Ten(d: nat): (p: nat)
    ensures p >= 1
  {
    if d == 0 then 1 else 10 * Ten(d - 1)
  }

  lemma {:induction false} TenSum(a: nat, b: nat)
    ensures Ten(a + b) == Ten(a) * Ten(b)
  {
    if a > 0 {
      TenSum(a - 1, b);
      MulAssoc(10, Ten(a - 1), Ten(b));
    }
  }

  lemma MulAssoc(a: int, b: int, c: int)
    ensures a * (b * c) == (a * b) * c
  {
  }

  /** bigint division of non-negative values. */
  function Quot(n: nat, p: nat): (q: nat)
    requires p >= 1
  {
    n / p
  }

  /** 10^-d as a real: one unit of the d-th decimal place. */
  function Unit(d: nat): (u: real)
    ensures 0.0 < u <= 1.0
  {
    if d == 0 then 1.0 else Unit(d - 1) / 10.0
  }

  lemma {:induction false} UnitInverse(d: nat)
    ensures Pow10(d) * Unit(d) == 1.0
  {
    if d > 0 {
      UnitInverse(d - 1);
      var p, u := Pow10(d - 1), Unit(d - 1);
      assert (10.0 * p) * (u / 10.0) == p * u;
    }
  }

  lemma MulNonNeg(a: real, b: real)
    requires a >= 0.0 && b >= 0.0
    ensures a * b >= 0.0
  {
  }

  lemma MulMono(a: real, b: real, k: real)
    requires a <= b && k >= 0.0
    ensures a * k <= b * k
  {
    MulNonNeg(b - a, k);
    assert (b - a) * k == b * k - a * k;
  }

  /** ASCII upper / lower case, as String.prototype.toUpperCase / toLowerCase act on symbols and addresses. */
  function UpperChar(c: char): char {
    if 'a' <= c <= 'z' then ((c as int) - 32) as char else c
  }

  function LowerChar(c: char): char {
    if 'A' <= c <= 'Z' then ((c as int) + 32) as char else c
  }

  function Upper(s: string): (u: string)
    ensures |u| == |s|
  {
    seq(|s|, i requires 0 <= i < |s| => UpperChar(s[i]))
  }

  function Lower(s: string): (u: string)
    ensures |u| == |s|
  {
    seq(|s|, i requires 0 <= i < |s| => LowerChar(s[i]))
  }

  const LOWER_LETTERS := "abcdefghijklmnopqrstuvwxyz"

  const UPPER_LETTERS := "ABCDEFGHIJKLMNOPQRSTUVWXYZ"

  /** Letters change into their counterpart in the alphabet, everything else stays. */
  lemma CaseIs(c: char)
    ensures UpperChar(c) == (if 'a' <= c <= 'z' then UPPER_LETTERS[c as int - 'a' as int] else c)
    ensures LowerChar(c) == (if 'A' <= c <= 'Z' then LOWER_LETTERS[c as int - 'A' as int] else c)
  {
    if 'a' <= c <= 'z' {
      LetterAt(c as int - 'a' as int);
    }
    if 'A' <= c <= 'Z' {
      LetterAt(c as int - 'A' as int);
    }
  }

  lemma LetterAt(i: int)
    requires 0 <= i < 26
    ensures LOWER_LETTERS[i] as int == 'a' as int + i && UPPER_LETTERS[i] as int == 'A' as int + i
  {
  }

  lemma UpperIdempotent(s: string)
    ensures Upper(Upper(s)) == Upper(s)
  {
  }

  /** Elements of a sequence with no duplicates, by index. */
  ghost predicate Distinct<T>(s: seq<T>) {
    forall i, j :: 0 <= i < j < |s| ==> s[i] != s[j]
  }

  // ── Insertion-ordered maps (Map), as the list of their entries ──

  function KeyIndex<K(==), V>(m: seq<(K, V)>, k: K): (i: Option<nat>)
    ensures i.Some? ==> i.value < |m| && m[i.value].0 == k
    ensures i.None? ==> forall j :: 0 <= j < |m| ==> m[j].0 != k
  {
    if m == [] then None
    else if m[|m| - 1].0 == k then Some(|m| - 1)
    else KeyIndex(m[..|m| - 1], k)
  }

  /** Map.set: an existing key keeps its place. */
  function Put<K(==), V>(m: seq<(K, V)>, k: K, v: V): (r: seq<(K, V)>)
  {
    var i := KeyIndex(m, k);
    if i.Some? then m[i.value := (k, v)] else m + [(k, v)]
  }

  function Get<K(==), V>(m: seq<(K, V)>, k: K): Option<V> {
    var i := KeyIndex(m, k);
    if i.Some? then Some(m[i.value].1) else None
  }

  ghost predicate DistinctKeys<K, V>(m: seq<(K, V)>) {
    forall i, j :: 0 <= i < j < |m| ==> m[i].0 != m[j].0
  }

  lemma GetAt<K, V>(m: seq<(K, V)>, i: nat)
    requires DistinctKeys(m) && i < |m|
    ensures KeyIndex(m, m[i].0) == Some(i) && Get(m, m[i].0) == Some(m[i].1)
  {
    var j := KeyIndex(m, m[i].0);
    assert j.Some?;
  }

  lemma PutNew<K, V>(m: seq<(K, V)>, k: K, v: V)
    requires DistinctKeys(m) && forall i :: 0 <= i < |m| ==> m[i].0 != k
    ensures Put(m, k, v) == m + [(k, v)] && DistinctKeys(Put(m, k, v))
  {
    var i := KeyIndex(m, k);
  }

  lemma PutGet<K, V>(m: seq<(K, V)>, k: K, v: V)
    requires DistinctKeys(m)
    ensures DistinctKeys(Put(m, k, v))
    ensures forall k' :: Get(Put(m, k, v), k') == if k' == k then Some(v) else Get(m, k')
  {
    var r := Put(m, k, v);
    var at := KeyIndex(m, k);
    forall k' ensures Get(r, k') == if k' == k then Some(v) else Get(m, k') {
      if at.None? {
        assert r[..|r| - 1] == m;
      } else if k' == k {
        GetAt(r, at.value);
      } else {
        var i := KeyIndex(m, k');
        if i.Some? {
          assert r[i.value].0 == k';
          GetAt(r, i.value);
          GetAt(m, i.value);
        }
      }
    }
  }
}
