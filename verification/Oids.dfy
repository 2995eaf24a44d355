/** Object identifiers, their order, and the subtree test of the walk. */
module Oids {

  type Oid = seq<nat>

  /** The lexicographic order of object identifiers. */
  predicate Less(a: Oid, b: Oid) {
    b != [] && (a == [] || a[0] < b[0] || (a[0] == b[0] && Less(a[1..], b[1..])))
  }

  /** `b` lies strictly below `root` in the tree. */
  predicate StrictlyBelow(root: Oid, b: Oid) {
    root <= b && root != b
  }

  // ---------- snmp++'s comparison of the first sub-identifiers ----------

  function CompareFirst(a: Oid, o: Oid, z: nat, length: nat): int
    requires length <= |a| && length <= |o|
    decreases length - z
  {
    if z >= length then 0
    else if a[z] < o[z] then -1
    else if a[z] > o[z] then 1
    else CompareFirst(a, o, z + 1, length)
  }

  /** `Oid::nCompare(n, o)` on the object `a`. */
  function NCompare(a: Oid, n: nat, o: Oid): int {
    var length := if |a| < n && |o| < n then (if |a| < |o| then |o| else |a|) else n;
    if length == 0 then 0
    else
      var reduced := length > |a| || length > |o|;
      var l1 := if length > |a| then |a| else length;
      var l2 := if l1 > |o| then |o| else l1;
      var c := CompareFirst(a, o, 0, l2);
      if c != 0 then c
      else if reduced && |a| < |o| then -1
      else if reduced && |a| > |o| then 1
      else 0
  }

  lemma {:induction false} CompareFirstZero(a: Oid, o: Oid, z: nat, length: nat)
    requires z <= length <= |a| && length <= |o|
    ensures CompareFirst(a, o, z, length) == 0 <==> a[z..length] == o[z..length]
    decreases length - z
  {
    if z < length {
      CompareFirstZero(a, o, z + 1, length);
      assert a[z..length] == [a[z]] + a[z + 1..length] && o[z..length] == [o[z]] + o[z + 1..length];
    }
  }

  /** Comparing as many sub-identifiers as the root has tells whether an identifier is in its subtree. */
  lemma ScopeTest(a: Oid, root: Oid)
    ensures NCompare(a, |root|, root) == 0 <==> root <= a
  {
    if |a| >= |root| {
      CompareFirstZero(a, root, 0, |root|);
      assert a[0..|root|] == a[..|root|] && root[0..|root|] == root;
    }
  }

  // ---------- order ----------

  /** The two identifiers agree on the first `k` sub-identifiers, and there `a` ends or has the smaller one. */
  ghost predicate DecidedAt(a: Oid, b: Oid, k: nat) {
    k <= |a| && k < |b| && a[..k] == b[..k] && (k == |a| || a[k] < b[k])
  }

  lemma DecidedAtOnce(a: Oid, b: Oid, k: nat)
    requires a == [] || b == [] || a[0] != b[0]
    ensures DecidedAt(a, b, k) <==> k == 0 && b != [] && (a == [] || a[0] < b[0])
  {
    if 0 < k <= |a| && k < |b| {
      assert a[..k][0] == a[0] && b[..k][0] == b[0];
    }
  }

  lemma DecidedNext(a: Oid, b: Oid, k: nat)
    requires a != [] && b != [] && a[0] == b[0]
    ensures DecidedAt(a, b, k + 1) <==> DecidedAt(a[1..], b[1..], k)
  {
    if k < |a| && k + 1 < |b| {
      assert a[..k + 1] == [a[0]] + a[1..][..k] && b[..k + 1] == [b[0]] + b[1..][..k];
    }
  }

  /** The order is decided at the first sub-identifier that differs; a proper beginning comes first. */
  lemma {:induction false} LessExactly(a: Oid, b: Oid)
    ensures Less(a, b) <==> exists k: nat :: DecidedAt(a, b, k)
  {
    if a == [] || b == [] || a[0] != b[0] {
      forall k: nat
        ensures DecidedAt(a, b, k) <==> k == 0 && b != [] && (a == [] || a[0] < b[0])
      {
        DecidedAtOnce(a, b, k);
      }
      assert DecidedAt(a, b, 0) <==> b != [] && (a == [] || a[0] < b[0]);
    } else {
      LessExactly(a[1..], b[1..]);
      forall k: nat
        ensures DecidedAt(a, b, k + 1) <==> DecidedAt(a[1..], b[1..], k)
      {
        DecidedNext(a, b, k);
      }
      assert !DecidedAt(a, b, 0);
      if k: nat :| DecidedAt(a, b, k) {
        assert DecidedAt(a[1..], b[1..], k - 1) <==> DecidedAt(a, b, k - 1 + 1);
      }
      if k: nat :| DecidedAt(a[1..], b[1..], k) {
        assert DecidedAt(a, b, k + 1);
      }
    }
  }

  lemma {:induction false} LessTransitive(a: Oid, b: Oid, c: Oid)
    requires Less(a, b) && Less(b, c)
    ensures Less(a, c)
  {
    if a != [] && a[0] == b[0] == c[0] {
      LessTransitive(a[1..], b[1..], c[1..]);
    }
  }

  lemma {:induction false} LessIrreflexive(a: Oid)
    ensures !Less(a, a)
  {
    if a != [] {
      LessIrreflexive(a[1..]);
    }
  }

  lemma {:induction false} BelowIsLess(root: Oid, b: Oid)
    requires StrictlyBelow(root, b)
    ensures Less(root, b)
  {
    if root != [] {
      assert b[1..][..|root| - 1] == root[1..];
      BelowIsLess(root[1..], b[1..]);
    }
  }

  /** A subtree is contiguous: what lies between its root and one of its members is a member. */
  lemma {:induction false} SubtreeContiguous(root: Oid, a: Oid, b: Oid)
    requires Less(root, a) && Less(a, b) && root <= b
    ensures StrictlyBelow(root, a)
  {
    LessIrreflexive(root);
    if root != [] {
      assert b[0] == root[0] && b[1..][..|root| - 1] == root[1..];
      SubtreeContiguous(root[1..], a[1..], b[1..]);
      assert a == [a[0]] + a[1..] && root == [root[0]] + root[1..];
    }
  }

  // ---------- an agent's view ----------

  /** The instances of an agent, in lexicographic order. */
  ghost predicate Ordered(view: seq<Oid>) {
    forall i, j | 0 <= i < j < |view| :: Less(view[i], view[j])
  }

  /** The position of the lexicographic successor of `oid`, from position `k` on. */
  function NextIndex(view: seq<Oid>, oid: Oid, k: nat): (n: nat)
    requires k <= |view|
    ensures k <= n <= |view|
    ensures forall i | k <= i < n :: !Less(oid, view[i])
    ensures n < |view| ==> Less(oid, view[n])
    decreases |view| - k
  {
    if k == |view| || Less(oid, view[k]) then k else NextIndex(view, oid, k + 1)
  }

  /** The strict descendants of `root`, in the order of the view. */
  function Descendants(view: seq<Oid>, root: Oid): seq<Oid> {
    if view == [] then []
    else (if StrictlyBelow(root, view[0]) then [view[0]] else []) + Descendants(view[1..], root)
  }

  lemma {:induction false} DescendantsOfSum(a: seq<Oid>, b: seq<Oid>, root: Oid)
    ensures Descendants(a + b, root) == Descendants(a, root) + Descendants(b, root)
  {
    if a == [] {
      assert a + b == b;
    } else {
      assert (a + b)[1..] == a[1..] + b;
      DescendantsOfSum(a[1..], b, root);
    }
  }

  lemma {:induction false} AllDescendants(a: seq<Oid>, root: Oid)
    requires forall i | 0 <= i < |a| :: StrictlyBelow(root, a[i])
    ensures Descendants(a, root) == a
  {
    if a != [] {
      AllDescendants(a[1..], root);
    }
  }

  lemma {:induction false} NoDescendants(a: seq<Oid>, root: Oid)
    requires forall i | 0 <= i < |a| :: !StrictlyBelow(root, a[i])
    ensures Descendants(a, root) == []
  {
    if a != [] {
      NoDescendants(a[1..], root);
    }
  }

  /** The end of the run of descendants that starts at position `k`. */
  ghost function RunEnd(view: seq<Oid>, root: Oid, k: nat): (n: nat)
    requires k <= |view|
    ensures k <= n <= |view|
    ensures forall i | k <= i < n :: StrictlyBelow(root, view[i])
    ensures n < |view| ==> !StrictlyBelow(root, view[n])
    decreases |view| - k
  {
    if k == |view| || !StrictlyBelow(root, view[k]) then k else RunEnd(view, root, k + 1)
  }

  lemma {:induction false} AfterNext(view: seq<Oid>, oid: Oid, i: nat)
    requires Ordered(view) && NextIndex(view, oid, 0) <= i < |view|
    ensures Less(oid, view[i])
  {
    var n := NextIndex(view, oid, 0);
    if n < i {
      LessTransitive(oid, view[n], view[i]);
    }
  }

  lemma {:induction false} OutsideRun(view: seq<Oid>, root: Oid, i: nat)
    requires Ordered(view) && i < |view|
    ensures var lo := NextIndex(view, root, 0); var hi := RunEnd(view, root, lo);
      i < lo || hi <= i ==> !StrictlyBelow(root, view[i])
  {
    var lo := NextIndex(view, root, 0);
    var hi := RunEnd(view, root, lo);
    if i < lo && StrictlyBelow(root, view[i]) {
      BelowIsLess(root, view[i]);
    } else if hi < i && StrictlyBelow(root, view[i]) {
      AfterNext(view, root, hi);
      SubtreeContiguous(root, view[hi], view[i]);
    }
  }

  lemma {:induction false} DescendantsOfParts(a: seq<Oid>, b: seq<Oid>, c: seq<Oid>, root: Oid)
    requires forall i | 0 <= i < |a| :: !StrictlyBelow(root, a[i])
    requires forall i | 0 <= i < |b| :: StrictlyBelow(root, b[i])
    requires forall i | 0 <= i < |c| :: !StrictlyBelow(root, c[i])
    ensures Descendants(a + b + c, root) == b
  {
    NoDescendants(a, root);
    AllDescendants(b, root);
    NoDescendants(c, root);
    DescendantsOfSum(a, b, root);
    DescendantsOfSum(a + b, c, root);
  }

  /** The descendants of a root are one slice of the view, starting at the root's successor. */
  lemma {:induction false} DescendantsAreSlice(view: seq<Oid>, root: Oid)
    requires Ordered(view)
    ensures var lo := NextIndex(view, root, 0); var hi := RunEnd(view, root, lo);
      Descendants(view, root) == view[lo..hi]
  {
    hide Ordered, Descendants, StrictlyBelow, Less;
    var lo := NextIndex(view, root, 0);
    var hi := RunEnd(view, root, lo);
    forall i | 0 <= i < |view| && (i < lo || hi <= i)
      ensures !StrictlyBelow(root, view[i])
    {
      OutsideRun(view, root, i);
    }
    DescendantsOfParts(view[..lo], view[lo..hi], view[hi..], root);
    assert view == view[..lo] + view[lo..hi] + view[hi..];
  }

  /** The successor of a member of the view is the next member. */
  lemma {:induction false} NextOfMember(view: seq<Oid>, i: nat)
    requires Ordered(view) && i < |view|
    ensures NextIndex(view, view[i], 0) == i + 1
  {
    var n := NextIndex(view, view[i], 0);
    LessIrreflexive(view[i]);
    assert i + 1 < |view| ==> Less(view[i], view[i + 1]);
    if n < i {
      LessTransitive(view[i], view[n], view[i]);
    }
  }

  /** Where a walk stands after `k` of the descendants. */
  function Reached(view: seq<Oid>, root: Oid, k: nat): Oid
    requires k <= |Descendants(view, root)|
  {
    if k == 0 then root else Descendants(view, root)[k - 1]
  }

  /** The successor of where a walk stands is the next descendant; after the last one it is outside
      the subtree or missing. */
  lemma {:induction false} NextReached(view: seq<Oid>, root: Oid, k: nat)
    requires Ordered(view) && k <= |Descendants(view, root)|
    ensures var n := NextIndex(view, Reached(view, root, k), 0);
      if k < |Descendants(view, root)| then n < |view| && view[n] == Descendants(view, root)[k]
      else n == |view| || !(root <= view[n])
  {
    hide Ordered, Descendants, Less;
    DescendantsAreSlice(view, root);
    var lo := NextIndex(view, root, 0);
    var hi := RunEnd(view, root, lo);
    LessIrreflexive(root);
    if k > 0 {
      NextOfMember(view, lo + k - 1);
    }
    var n := NextIndex(view, Reached(view, root, k), 0);
    assert n == lo + k;
    if k == hi - lo && n < |view| {
      AfterNext(view, root, n);
    }
  }
}
