/** Sequence predicates shared by the ordering and uniqueness properties. */
module Sequences {

  /** No value occurs twice in `s`. */
  predicate Distinct<T(==)>(s: seq<T>) {
    forall i, j :: 0 <= i < j < |s| ==> s[i] != s[j]
  }

  /**
   * `f` embeds `a` into `b` in order: `f` lists strictly increasing positions
   * of `b` at which the elements of `a` are found.
   */
  predicate Embeds<T(==)>(a: seq<T>, b: seq<T>, f: seq<nat>) {
    && |f| == |a|
    && (forall i :: 0 <= i < |f| ==> f[i] < |b| && b[f[i]] == a[i])
    && (forall i, j :: 0 <= i < j < |f| ==> f[i] < f[j])
  }

  /** `a` is obtained from `b` by deleting elements. */
  ghost predicate IsSubseq<T>(a: seq<T>, b: seq<T>) {
    exists f :: Embeds(a, b, f)
  }

  lemma SubseqRefl<T>(a: seq<T>)
    ensures IsSubseq(a, a)
  {
    var f := seq(|a|, i requires 0 <= i < |a| => i);
    assert Embeds(a, a, f);
  }

  /** Growing the larger sequence keeps a subsequence a subsequence. */
  lemma SubseqExtendRight<T>(a: seq<T>, b: seq<T>, x: T)
    requires IsSubseq(a, b)
    ensures IsSubseq(a, b + [x])
  {
    var f: seq<nat> :| Embeds(a, b, f);
    assert Embeds(a, b + [x], f);
  }

  /** Appending the same element to both sides keeps a subsequence a subsequence. */
  lemma SubseqExtendBoth<T>(a: seq<T>, b: seq<T>, x: T)
    requires IsSubseq(a, b)
    ensures IsSubseq(a + [x], b + [x])
  {
    var f: seq<nat> :| Embeds(a, b, f);
    var g: seq<nat> := f + [|b|];
    forall i | 0 <= i < |g|
      ensures g[i] < |b + [x]| && (b + [x])[g[i]] == (a + [x])[i]
    {
      if i < |f| {
        assert g[i] == f[i];
      }
    }
    assert Embeds(a + [x], b + [x], g);
  }

  /** Growing the larger sequence at the front keeps a subsequence a subsequence. */
  lemma SubseqConsRight<T>(a: seq<T>, b: seq<T>, x: T)
    requires IsSubseq(a, b)
    ensures IsSubseq(a, [x] + b)
  {
    var f: seq<nat> :| Embeds(a, b, f);
    var g := seq(|f|, i requires 0 <= i < |f| => f[i] + 1);
    assert Embeds(a, [x] + b, g);
  }

  /** Putting the same element in front of both sides keeps a subsequence a subsequence. */
  lemma SubseqCons<T>(a: seq<T>, b: seq<T>, x: T)
    requires IsSubseq(a, b)
    ensures IsSubseq([x] + a, [x] + b)
  {
    var f: seq<nat> :| Embeds(a, b, f);
    var g := [0] + seq(|f|, i requires 0 <= i < |f| => f[i] + 1);
    assert Embeds([x] + a, [x] + b, g);
  }

  /** Deleting one element of the smaller sequence keeps it a subsequence. */
  lemma SubseqDelete<T>(a: seq<T>, b: seq<T>, k: nat)
    requires IsSubseq(a, b)
    requires k < |a|
    ensures IsSubseq(a[..k] + a[k + 1..], b)
  {
    var f: seq<nat> :| Embeds(a, b, f);
    var g := f[..k] + f[k + 1..];
    var a' := a[..k] + a[k + 1..];
    forall i | 0 <= i < |g|
      ensures g[i] < |b| && b[g[i]] == a'[i]
    {
      if i < k {
        assert g[i] == f[i] && a'[i] == a[i];
      } else {
        assert g[i] == f[i + 1] && a'[i] == a[i + 1];
      }
    }
    forall i, j | 0 <= i < j < |g|
      ensures g[i] < g[j]
    {
      var fi := if i < k then i else i + 1;
      var fj := if j < k then j else j + 1;
      assert g[i] == f[fi] && g[j] == f[fj];
    }
    assert Embeds(a', b, g);
  }

  /** A prefix of a subsequence is a subsequence. */
  lemma SubseqPrefix<T>(a: seq<T>, b: seq<T>, n: nat)
    requires IsSubseq(a, b)
    requires n <= |a|
    ensures IsSubseq(a[..n], b)
  {
    var f: seq<nat> :| Embeds(a, b, f);
    assert Embeds(a[..n], b, f[..n]);
  }

  /** Every element of a subsequence is an element of the larger sequence. */
  lemma SubseqMembers<T>(a: seq<T>, b: seq<T>)
    requires IsSubseq(a, b)
    ensures forall x :: x in a ==> x in b
  {
    var f: seq<nat> :| Embeds(a, b, f);
    forall x | x in a
      ensures x in b
    {
      var i :| 0 <= i < |a| && a[i] == x;
      assert b[f[i]] == x;
    }
  }

  /** Elements in order of first occurrence. */
  function Dedup<T(==)>(s: seq<T>): (r: seq<T>)
  {
    DedupInto([], s)
  }

  /** Appends to `seen` each element of `s` not already present (LinkedHashSet insertion). */
  function DedupInto<T(==)>(seen: seq<T>, s: seq<T>): (r: seq<T>)
    decreases |s|
  {
    if |s| == 0 then seen
    else if s[0] in seen then DedupInto(seen, s[1..])
    else DedupInto(seen + [s[0]], s[1..])
  }

  /** Position of the first occurrence of `x` in `s`. */
  function FirstIndex<T(==)>(s: seq<T>, x: T): (i: nat)
    requires x in s
    ensures i < |s| && s[i] == x
    ensures forall j :: 0 <= j < i ==> s[j] != x
  {
    if s[0] == x then 0 else 1 + FirstIndex(s[1..], x)
  }

  /** Every element of the result comes from `seen` or from `s`, and every such element is kept. */
  lemma {:induction false} DedupIntoMember<T>(seen: seq<T>, s: seq<T>, x: T)
    ensures x in DedupInto(seen, s) <==> x in seen || x in s
    decreases |s|
  {
    if |s| > 0 {
      DedupIntoMember(if s[0] in seen then seen else seen + [s[0]], s[1..], x);
      assert s == [s[0]] + s[1..];
    }
  }

  /** `seen` is kept as a prefix. */
  lemma {:induction false} DedupIntoPrefix<T>(seen: seq<T>, s: seq<T>)
    ensures |seen| <= |DedupInto(seen, s)| && DedupInto(seen, s)[..|seen|] == seen
    decreases |s|
  {
    if |s| > 0 {
      var seen' := if s[0] in seen then seen else seen + [s[0]];
      DedupIntoPrefix(seen', s[1..]);
      assert seen'[..|seen|] == seen;
    }
  }

  /** Nothing is inserted twice. */
  lemma {:induction false} DedupIntoDistinct<T>(seen: seq<T>, s: seq<T>)
    requires Distinct(seen)
    ensures Distinct(DedupInto(seen, s))
    decreases |s|
  {
    if |s| > 0 {
      var seen' := if s[0] in seen then seen else seen + [s[0]];
      assert Distinct(seen');
      DedupIntoDistinct(seen', s[1..]);
    }
  }

  /** Inserted elements come in the order of their first occurrence in `s`. */
  lemma {:induction false} DedupIntoOrder<T>(seen: seq<T>, s: seq<T>, i: nat, j: nat)
    requires Distinct(seen)
    requires |seen| <= i < j < |DedupInto(seen, s)|
    ensures DedupInto(seen, s)[i] in s && DedupInto(seen, s)[j] in s
    ensures FirstIndex(s, DedupInto(seen, s)[i]) < FirstIndex(s, DedupInto(seen, s)[j])
    decreases |s|
  {
    var r := DedupInto(seen, s);
    if |s| > 0 {
      var tail := s[1..];
      var seen' := if s[0] in seen then seen else seen + [s[0]];
      assert r == DedupInto(seen', tail);
      assert Distinct(seen');
      DedupIntoPrefix(seen', tail);
      DedupIntoDistinct(seen', tail);
      NotInPrefix(r, seen', j);
      DedupIntoMember(seen', tail, r[j]);
      assert r[j] in tail && r[j] != s[0];
      FirstIndexTail(s, r[j]);
      if i >= |seen'| {
        DedupIntoOrder(seen', tail, i, j);
        NotInPrefix(r, seen', i);
        DedupIntoMember(seen', tail, r[i]);
        FirstIndexTail(s, r[i]);
      } else {
        assert r[i] == seen'[i] == s[0];
      }
    }
  }

  /** In a duplicate-free sequence with prefix `p`, elements past the prefix are not in `p`. */
  lemma NotInPrefix<T>(r: seq<T>, p: seq<T>, j: nat)
    requires Distinct(r)
    requires |p| <= j < |r| && r[..|p|] == p
    ensures r[j] !in p
  {
  }

  /**
   * Inserting `s` into a duplicate-free `seen` keeps `seen` as a prefix, adds
   * exactly the elements of `s` that were missing, without repetition, and
   * orders them by their first occurrence in `s`.
   */
  lemma DedupIntoSpec<T>(seen: seq<T>, s: seq<T>)
    requires Distinct(seen)
    ensures Distinct(DedupInto(seen, s))
    ensures |seen| <= |DedupInto(seen, s)| && DedupInto(seen, s)[..|seen|] == seen
    ensures forall x :: x in DedupInto(seen, s) <==> x in seen || x in s
    ensures forall i, j :: |seen| <= i < j < |DedupInto(seen, s)| ==>
              DedupInto(seen, s)[i] in s && DedupInto(seen, s)[j] in s &&
              FirstIndex(s, DedupInto(seen, s)[i]) < FirstIndex(s, DedupInto(seen, s)[j])
  {
    DedupIntoDistinct(seen, s);
    DedupIntoPrefix(seen, s);
    forall i, j | |seen| <= i < j < |DedupInto(seen, s)|
      ensures DedupInto(seen, s)[i] in s && DedupInto(seen, s)[j] in s &&
              FirstIndex(s, DedupInto(seen, s)[i]) < FirstIndex(s, DedupInto(seen, s)[j])
    {
      DedupIntoOrder(seen, s, i, j);
    }
    forall x
      ensures x in DedupInto(seen, s) <==> x in seen || x in s
    {
      DedupIntoMember(seen, s, x);
    }
    assert Distinct(DedupInto(seen, s));
    assert |seen| <= |DedupInto(seen, s)| && DedupInto(seen, s)[..|seen|] == seen;
    assert forall x :: x in DedupInto(seen, s) <==> x in seen || x in s;
  }

  /** A duplicate-free sequence whose elements all occur in `b` is no longer than `b`. */
  lemma {:induction false} DistinctWithin<T>(a: seq<T>, b: seq<T>)
    requires Distinct(a)
    requires forall x :: x in a ==> x in b
    ensures |a| <= |b|
    decreases |a|
  {
    if |a| > 0 {
      var i := FirstIndex(b, a[0]);
      var b' := b[..i] + b[i + 1..];
      forall y | y in a[1..]
        ensures y in b'
      {
        var k :| 0 <= k < |a[1..]| && a[1..][k] == y;
        assert a[k + 1] == y && y != a[0] && y in a;
        var j :| 0 <= j < |b| && b[j] == y;
        if j < i {
          assert b'[j] == y;
        } else {
          assert b'[j - 1] == y;
        }
      }
      DistinctWithin(a[1..], b');
    }
  }

  lemma FirstIndexTail<T>(s: seq<T>, x: T)
    requires |s| > 0 && x in s[1..] && x != s[0]
    ensures FirstIndex(s, x) == 1 + FirstIndex(s[1..], x)
  {
  }
}
