/**
 * The order in which grouped tables list their keys: strings compared
 * lexicographically by code point, as `<` on `str` compares them, and
 * the insertion that keeps a key list strictly ascending.
 */
module StringOrder {

  /** `a` sorts strictly before `b`. */
  predicate LexLess(a: string, b: string)
  {
    if a == [] then b != []
    else if b == [] then false
    else a[0] < b[0] || (a[0] == b[0] && LexLess(a[1..], b[1..]))
  }

  lemma {:induction false} LexLessIrreflexive(a: string)
    ensures !LexLess(a, a)
  {
    if a != [] {
      LexLessIrreflexive(a[1..]);
    }
  }

  lemma {:induction false} LexLessTransitive(a: string, b: string, c: string)
    requires LexLess(a, b) && LexLess(b, c)
    ensures LexLess(a, c)
  {
    if a != [] && b != [] && c != [] && a[0] == b[0] == c[0] {
      LexLessTransitive(a[1..], b[1..], c[1..]);
    }
  }

  /** Any two distinct strings are ordered one way or the other. */
  lemma {:induction false} LexLessTotal(a: string, b: string)
    ensures a == b || LexLess(a, b) || LexLess(b, a)
  {
    if a != [] && b != [] && a[0] == b[0] {
      LexLessTotal(a[1..], b[1..]);
      if a[1..] == b[1..] {
        assert a == [a[0]] + a[1..] && b == [b[0]] + b[1..];
      }
    }
  }

  /** Ascending without repeats. */
  predicate StrictlySorted(ks: seq<string>)
  {
    forall i, j :: 0 <= i < j < |ks| ==> LexLess(ks[i], ks[j])
  }

  /** Adds `k` to an ascending key list unless it is there already. */
  function InsertKey(ks: seq<string>, k: string): (r: seq<string>)
    requires StrictlySorted(ks)
    ensures StrictlySorted(r)
    ensures forall x :: x in r <==> x in ks || x == k
  {
    if ks == [] then [k]
    else if k == ks[0] then ks
    else if LexLess(k, ks[0]) then
      LessThanAll(k, ks);
      [k] + ks
    else
      var rest := InsertKey(ks[1..], k);
      LexLessTotal(k, ks[0]);
      HeadBelowAll(ks[0], rest, ks[1..], k);
      [ks[0]] + rest
  }

  /** A key below the head of an ascending list is below all of it. */
  lemma LessThanAll(k: string, ks: seq<string>)
    requires StrictlySorted(ks) && ks != [] && LexLess(k, ks[0])
    ensures StrictlySorted([k] + ks)
  {
    forall j | 0 < j < |ks| ensures LexLess(k, ks[j]) {
      LexLessTransitive(k, ks[0], ks[j]);
    }
  }

  /** Prepending a key below every element of an ascending list keeps it ascending. */
  lemma HeadBelowAll(h: string, r: seq<string>, ks: seq<string>, k: string)
    requires StrictlySorted(r)
    requires forall x :: x in r ==> x in ks || x == k
    requires forall x :: x in ks ==> LexLess(h, x)
    requires LexLess(h, k)
    ensures StrictlySorted([h] + r)
  {
    forall j | 0 <= j < |r| ensures LexLess(h, r[j]) {
      assert r[j] in r;
    }
  }
}
