/** Facts about sequences and their elements that several modules share. */
module Seqs {

  datatype Option<T> = None | Some(value: T)

  ghost predicate Distinct<T>(s: seq<T>) {
    forall i, j | 0 <= i < j < |s| :: s[i] != s[j]
  }

  /** The sequence with element `d` taken out. */
  function Without<T>(s: seq<T>, d: nat): (t: seq<T>)
    requires d < |s|
    ensures |t| == |s| - 1 && forall i | 0 <= i < |t| :: t[i] == if i < d then s[i] else s[i + 1]
  {
    s[..d] + s[d + 1..]
  }

  /** The sequence with `x` put in at position `pos`. */
  function Inserted<T>(s: seq<T>, pos: nat, x: T): (t: seq<T>)
    requires pos <= |s|
    ensures |t| == |s| + 1
    ensures forall i | 0 <= i < |t| :: t[i] == if i < pos then s[i] else if i == pos then x else s[i - 1]
  {
    s[..pos] + [x] + s[pos..]
  }

  lemma InsertedDistinct<T>(s: seq<T>, pos: nat, x: T)
    requires Distinct(s) && x !in s && pos <= |s|
    ensures Distinct(Inserted(s, pos, x)) && forall i | 0 <= i <= |s| && i != pos :: Inserted(s, pos, x)[i] != x
    ensures pos > 0 ==> forall i | 0 <= i < |s| && i != pos - 1 :: s[i] != s[pos - 1]
  {
  }

  lemma WithoutDistinct<T>(s: seq<T>, d: nat)
    requires Distinct(s) && d < |s|
    ensures Distinct(Without(s, d)) && s[d] !in Without(s, d)
    ensures d > 0 ==> forall i | 0 <= i < |s| && i != d - 1 :: s[i] != s[d - 1]
  {
  }

  lemma LastElement<T>(s: seq<T>)
    requires s != []
    ensures multiset(s) == multiset(s[..|s| - 1]) + multiset{s[|s| - 1]}
  {
    assert s == s[..|s| - 1] + [s[|s| - 1]];
  }

  lemma SubMultisetSize<T>(a: seq<T>, b: seq<T>)
    requires multiset(a) <= multiset(b)
    ensures |a| <= |b|
    ensures |a| == |b| <==> multiset(a) == multiset(b)
  {
    assert multiset(b) == multiset(a) + (multiset(b) - multiset(a));
    assert |multiset(a)| == |a| && |multiset(b)| == |b|;
  }

  lemma SameElements<T>(a: seq<T>, b: seq<T>)
    requires multiset(a) == multiset(b)
    ensures |a| == |b|
    ensures forall i | 0 <= i < |a| :: a[i] in b
    ensures forall i | 0 <= i < |b| :: b[i] in a
  {
    assert |multiset(a)| == |a| && |multiset(b)| == |b|;
    assert forall i | 0 <= i < |a| :: a[i] in multiset(a);
    assert forall i | 0 <= i < |b| :: b[i] in multiset(b);
  }

  lemma IndexIn<T>(a: seq<T>, b: seq<T>, k: nat) returns (i: nat)
    requires multiset(a) <= multiset(b) && k < |a|
    ensures i < |b| && b[i] == a[k]
  {
    assert a[k] in multiset(a);
    assert a[k] in multiset(b);
    i :| 0 <= i < |b| && b[i] == a[k];
  }

  lemma OnceOnly<T>(a: seq<T>, x: T)
    requires Distinct(a)
    ensures multiset(a)[x] <= 1
  {
    if x in a {
      var i :| 0 <= i < |a| && a[i] == x;
      assert a == a[..i] + [x] + a[i + 1..];
      assert x !in a[..i] && x !in a[i + 1..];
    }
  }

  /** A rearrangement of distinct elements is distinct. */
  lemma SameDistinct<T>(a: seq<T>, b: seq<T>)
    requires multiset(a) == multiset(b) && Distinct(a)
    ensures Distinct(b)
  {
    forall i, j | 0 <= i < j < |b|
      ensures b[i] != b[j]
    {
      OnceOnly(a, b[i]);
      assert b == b[..i] + [b[i]] + b[i + 1..j] + [b[j]] + b[j + 1..];
    }
  }
}
