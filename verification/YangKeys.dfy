/** The key of a YANG list and the leafs it must name: `smi2yangKey`, the foreign-leafref loop of
    `smi2yangTable`, and `smi2yangColumnarLeafs`. */
module YangKeys {
  import opened Decimal
  import opened Seqs
  import opened Texts

  /** An element of the INDEX clause.  `local` says that the column's parent is the row itself. */
  datatype Element = Element(name: string, column: bool, local: bool)

  /** A child node of the row. */
  datatype Child = Child(name: string, column: bool, accessible: bool)

  // ---------- the names that the three functions invent ----------

  /** How many of the first `c` elements carry `name`. */
  function Before(es: seq<Element>, c: nat, name: string): nat
    requires c <= |es|
  {
    if c == 0 then 0 else Before(es, c - 1, name) + (if es[c - 1].name == name then 1 else 0)
  }

  /** The name of the occurrence that has `k` earlier ones. */
  function Leaf(name: string, k: nat): string {
    if k > 0 then name + "_" + Dec(k + 1) else name
  }

  /** A leaf identified by its column name and the number of earlier occurrences. */
  type Occurrence = (string, nat)

  function TokenOf(es: seq<Element>, c: nat): Occurrence
    requires c < |es|
  {
    (es[c].name, Before(es, c, es[c].name))
  }

  function Tokens(es: seq<Element>, c: nat): (r: seq<Occurrence>)
    requires c <= |es|
    ensures |r| == c && forall i | 0 <= i < c :: r[i] == TokenOf(es, i)
  {
    if c == 0 then [] else Tokens(es, c - 1) + [TokenOf(es, c - 1)]
  }

  function Foreign(es: seq<Element>, c: nat): seq<Occurrence>
    requires c <= |es|
  {
    if c == 0 then [] else
    Foreign(es, c - 1) + (if es[c - 1].column && !es[c - 1].local then [TokenOf(es, c - 1)] else [])
  }

  /** How many leafs a column child gets. */
  function Made(es: seq<Element>, child: Child): nat {
    var c := Before(es, |es|, child.name);
    if c == 0 && child.accessible then 1 else c
  }

  function Copies(name: string, m: nat): (r: seq<Occurrence>)
    ensures |r| == m && forall i | 0 <= i < m :: r[i] == (name, i)
  {
    seq(m, i requires 0 <= i < m => (name, i))
  }

  function Columnar(es: seq<Element>, children: seq<Child>, c: nat): seq<Occurrence>
    requires c <= |children|
  {
    if c == 0 then [] else
    Columnar(es, children, c - 1)
      + (if children[c - 1].column then Copies(children[c - 1].name, Made(es, children[c - 1])) else [])
  }

  function Names(ps: seq<Occurrence>): (r: seq<string>)
    ensures |r| == |ps| && forall i | 0 <= i < |ps| :: r[i] == Leaf(ps[i].0, ps[i].1)
  {
    seq(|ps|, i requires 0 <= i < |ps| => Leaf(ps[i].0, ps[i].1))
  }

  /** The leafs of the list, in the order they are added. */
  function Leafs(es: seq<Element>, children: seq<Child>): seq<Occurrence> {
    Foreign(es, |es|) + Columnar(es, children, |children|)
  }

  /** The key text for the first `c` elements. */
  function KeyText(es: seq<Element>, c: nat): string
    requires c <= |es|
  {
    if c == 0 then ""
    else
      var t := TokenOf(es, c - 1);
      KeyText(es, c - 1) + (if c > 1 then " " else "") + Leaf(t.0, t.1)
  }

  // ---------- the loops ----------

  /** The inner loop of the key and of the leafref function. */
  method CountEarlier(es: seq<Element>, c: nat) returns (n: nat)
    requires c < |es|
    ensures n == Before(es, c, es[c].name)
  {
    var i := 0;
    n := 0;
    while i < |es| && i < c
      invariant i <= c && n == Before(es, i, es[c].name)
    {
      if es[c].name == es[i].name {
        n := n + 1;
      }
      i := i + 1;
    }
  }

  method Key(es: seq<Element>) returns (s: string)
    ensures s == KeyText(es, |es|)
  {
    s := "";
    var c := 0;
    while c < |es|
      invariant c <= |es| && s == KeyText(es, c)
    {
      var n := CountEarlier(es, c);
      var o := s;
      if n > 0 {
        s := o + (if c > 0 then " " else "") + (es[c].name + "_" + Dec(n + 1));
      } else {
        s := o + (if c > 0 then " " else "") + es[c].name;
      }
      c := c + 1;
    }
  }

  method ForeignLeafs(es: seq<Element>) returns (leafs: seq<string>)
    ensures leafs == Names(Foreign(es, |es|))
  {
    leafs := [];
    var c := 0;
    while c < |es|
      invariant c <= |es| && leafs == Names(Foreign(es, c))
    {
      var n := CountEarlier(es, c);
      if es[c].column && !es[c].local {
        if n > 0 {
          leafs := leafs + [es[c].name + "_" + Dec(n + 1)];
        } else {
          leafs := leafs + [es[c].name];
        }
      }
      c := c + 1;
    }
  }

  method CopiesOf(es: seq<Element>, child: Child) returns (leafs: seq<string>)
    ensures leafs == Names(Copies(child.name, Made(es, child)))
  {
    var c, e := 0, 0;
    while e < |es|
      invariant e <= |es| && c == Before(es, e, child.name)
    {
      if child.name == es[e].name {
        c := c + 1;
      }
      e := e + 1;
    }
    if c == 0 && child.accessible {
      c := 1;
    }
    leafs := [];
    var i := 0;
    while i < c
      invariant i <= c && leafs == Names(Copies(child.name, i))
    {
      if i > 0 {
        leafs := leafs + [child.name + "_" + Dec(i + 1)];
      } else {
        leafs := leafs + [child.name];
      }
      i := i + 1;
    }
  }

  method ColumnarLeafs(es: seq<Element>, children: seq<Child>) returns (leafs: seq<string>)
    ensures leafs == Names(Columnar(es, children, |children|))
  {
    leafs := [];
    var k := 0;
    while k < |children|
      invariant k <= |children| && leafs == Names(Columnar(es, children, k))
    {
      var child := children[k];
      if child.column {
        var made := CopiesOf(es, child);
        leafs := leafs + made;
      }
      k := k + 1;
    }
  }

  /** All leafs of the list: the leafrefs first, then those of the row's own columns. */
  method ListLeafs(es: seq<Element>, children: seq<Child>) returns (leafs: seq<string>)
    ensures leafs == Names(Leafs(es, children))
  {
    leafs := ForeignLeafs(es);
    var own := ColumnarLeafs(es, children);
    leafs := leafs + own;
  }

  // ---------- when two invented names are the same ----------

  lemma SameSuffix(a: string, d: string, b: string, e: string)
    requires AllDigits(d) && AllDigits(e) && a + "_" + d == b + "_" + e
    ensures a == b && d == e
  {
    var x := a + "_" + d;
    assert x[|a|] == '_' && x[|b|] == '_';
    assert forall k | |a| < k < |x| :: x[k] == d[k - |a| - 1];
    assert forall k | |b| < k < |x| :: x[k] == e[k - |b| - 1];
    assert |a| == |b|;
    assert a == x[..|a|] && b == x[..|b|] && d == x[|a| + 1..] && e == x[|b| + 1..];
  }

  /** A numbered name ends behind its last underscore, so it gives name and number back; a name that
      is not numbered can be any text. */
  lemma LeafCollision(a: string, i: nat, b: string, j: nat)
    ensures Leaf(a, i) == Leaf(b, j)
      <==> (a == b && i == j) || (i == 0 < j && a == Leaf(b, j)) || (j == 0 < i && b == Leaf(a, i))
  {
    if i > 0 && j > 0 && Leaf(a, i) == Leaf(b, j) {
      SameSuffix(a, Dec(i + 1), b, Dec(j + 1));
      ReadDecDec(i + 1);
      ReadDecDec(j + 1);
    }
  }

  /** One occurrence carries as its plain name the numbered name of another. */
  ghost predicate Clash(p: Occurrence, q: Occurrence) {
    p.1 == 0 < q.1 && p.0 == Leaf(q.0, q.1)
  }

  lemma LeafZero(name: string)
    ensures Leaf(name, 0) == name
  {
  }

  /** Distinct occurrences get distinct names exactly when none clashes with another. */
  lemma NamesDistinct(ps: seq<Occurrence>)
    requires Distinct(ps)
    ensures Distinct(Names(ps)) <==> forall i, j | 0 <= i < |ps| && 0 <= j < |ps| :: !Clash(ps[i], ps[j])
  {
    hide Leaf;
    forall i, j | 0 <= i < |ps| && 0 <= j < |ps| && i != j
      ensures Names(ps)[i] == Names(ps)[j] <==> Clash(ps[i], ps[j]) || Clash(ps[j], ps[i])
    {
      LeafCollision(ps[i].0, ps[i].1, ps[j].0, ps[j].1);
      LeafZero(ps[i].0);
      LeafZero(ps[j].0);
    }
    forall i, j | 0 <= i < |ps| && 0 <= j < |ps| && Clash(ps[i], ps[j])
      ensures !Distinct(Names(ps))
    {
      assert i != j && Names(ps)[i] == Names(ps)[j];
    }
  }

  lemma {:induction false} BeforeGrows(es: seq<Element>, i: nat, c: nat)
    requires i < c <= |es|
    ensures Before(es, i, es[i].name) < Before(es, c, es[i].name)
  {
    if i < c - 1 {
      BeforeGrows(es, i, c - 1);
    }
  }

  lemma {:induction false} TokensDistinct(es: seq<Element>)
    ensures Distinct(Tokens(es, |es|))
  {
    forall i, j | 0 <= i < j < |es|
      ensures TokenOf(es, i) != TokenOf(es, j)
    {
      BeforeGrows(es, i, j);
    }
  }

  ghost predicate IsForeign(es: seq<Element>, c: nat, p: Occurrence)
    requires c <= |es|
  {
    exists i :: 0 <= i < c && es[i].column && !es[i].local && p == TokenOf(es, i)
  }

  lemma {:induction false} ForeignMembers(es: seq<Element>, c: nat)
    requires c <= |es|
    ensures forall k | 0 <= k < |Foreign(es, c)| :: IsForeign(es, c, Foreign(es, c)[k])
    ensures forall i | 0 <= i < c && es[i].column && !es[i].local :: TokenOf(es, i) in Foreign(es, c)
    ensures Distinct(Foreign(es, c))
  {
    if c > 0 {
      ForeignMembers(es, c - 1);
      forall i | 0 <= i < c - 1
        ensures TokenOf(es, i) != TokenOf(es, c - 1)
      {
        BeforeGrows(es, i, c - 1);
      }
      forall p | IsForeign(es, c - 1, p)
        ensures IsForeign(es, c, p)
      {
      }
    }
  }

  ghost predicate IsColumnar(es: seq<Element>, children: seq<Child>, c: nat, p: Occurrence)
    requires c <= |children|
  {
    exists i :: 0 <= i < c && children[i].column && p.0 == children[i].name && p.1 < Made(es, children[i])
  }

  lemma {:induction false} ColumnarMembers(es: seq<Element>, children: seq<Child>, c: nat)
    requires c <= |children|
    ensures forall k | 0 <= k < |Columnar(es, children, c)| :: IsColumnar(es, children, c, Columnar(es, children, c)[k])
    ensures forall i, m | 0 <= i < c && children[i].column && 0 <= m < Made(es, children[i]) ::
      (children[i].name, m) in Columnar(es, children, c)
  {
    if c > 0 {
      ColumnarMembers(es, children, c - 1);
      var last := children[c - 1];
      var earlier := Columnar(es, children, c - 1);
      forall p | IsColumnar(es, children, c - 1, p)
        ensures IsColumnar(es, children, c, p)
      {
      }
      if last.column {
        var copies := Copies(last.name, Made(es, last));
        forall m | 0 <= m < |copies|
          ensures (last.name, m) in earlier + copies
          ensures IsColumnar(es, children, c, copies[m])
        {
          assert (earlier + copies)[|earlier| + m] == (last.name, m);
        }
      }
    }
  }

  lemma {:induction false} ColumnarDistinct(es: seq<Element>, children: seq<Child>, c: nat)
    requires c <= |children|
    requires forall i, j | 0 <= i < j < |children| && children[i].column && children[j].column ::
      children[i].name != children[j].name
    ensures Distinct(Columnar(es, children, c))
  {
    if c > 0 {
      ColumnarDistinct(es, children, c - 1);
      ColumnarMembers(es, children, c - 1);
    }
  }

  // ---------- the key text read back ----------

  lemma LeafHasNoSpace(name: string, k: nat)
    requires ' ' !in name
    ensures ' ' !in Leaf(name, k)
  {
  }

  lemma NamesOfMore(es: seq<Element>, c: nat)
    requires 0 < c <= |es|
    ensures Names(Tokens(es, c)) == Names(Tokens(es, c - 1)) + [Leaf(TokenOf(es, c - 1).0, TokenOf(es, c - 1).1)]
  {
  }

  /** Reading the key text gives the tokens back. */
  lemma {:induction false} KeyTextSplits(es: seq<Element>, c: nat)
    requires 0 < c <= |es| && forall i | 0 <= i < |es| :: ' ' !in es[i].name
    ensures Split(KeyText(es, c), ' ') == Names(Tokens(es, c))
  {
    var p := TokenOf(es, c - 1);
    var t := Leaf(p.0, p.1);
    LeafHasNoSpace(p.0, p.1);
    NamesOfMore(es, c);
    if c == 1 {
      SplitOne(t, ' ');
      assert KeyText(es, 1) == t;
    } else {
      hide Leaf, Split, Tokens, Names;
      KeyTextSplits(es, c - 1);
      SplitAppend(KeyText(es, c - 1), ' ', t);
    }
  }

  lemma {:induction false} NthOccurrence(es: seq<Element>, c: nat, name: string, m: nat) returns (i: nat)
    requires c <= |es| && m < Before(es, c, name)
    ensures i < c && es[i].name == name && Before(es, i, name) == m
  {
    if m < Before(es, c - 1, name) {
      i := NthOccurrence(es, c - 1, name, m);
    } else {
      i := c - 1;
    }
  }

  /** No leaf is made for nothing: each is named by a key token, or is the one leaf of an accessible
      column that is not in the index. */
  lemma LeafIsToken(es: seq<Element>, children: seq<Child>, k: nat)
    requires k < |Leafs(es, children)|
    ensures var p := Leafs(es, children)[k];
      || (exists i :: 0 <= i < |es| && p == TokenOf(es, i))
      || (p.1 == 0 && exists j :: 0 <= j < |children| && children[j].column && children[j].accessible
                                  && children[j].name == p.0 && forall i | 0 <= i < |es| :: es[i].name != p.0)
  {
    ForeignMembers(es, |es|);
    ColumnarMembers(es, children, |children|);
    var p := Leafs(es, children)[k];
    if k < |Foreign(es, |es|)| {
      assert IsForeign(es, |es|, p);
    } else {
      assert IsColumnar(es, children, |children|, p);
      if p.1 < Before(es, |es|, p.0) {
        var i := NthOccurrence(es, |es|, p.0, p.1);
        assert p == TokenOf(es, i);
      } else {
        forall i | 0 <= i < |es|
          ensures es[i].name != p.0
        {
          if es[i].name == p.0 {
            BeforeGrows(es, i, |es|);
          }
        }
      }
    }
  }

  // ---------- main results ----------

  /** A row as the SMI defines it: index elements that are columns, descriptors without space, and each
      name standing for one column. */
  ghost predicate WellFormed(es: seq<Element>, children: seq<Child>) {
    && (forall i | 0 <= i < |es| :: es[i].column && ' ' !in es[i].name)
    && (forall i, j | 0 <= i < j < |children| && children[i].column && children[j].column ::
        children[i].name != children[j].name)
    && (forall i | 0 <= i < |es| :: es[i].local <==>
        exists j :: 0 <= j < |children| && children[j].column && children[j].name == es[i].name)
  }

  /** `name` is that of some index element with "_" and the number of a second or later occurrence. */
  ghost predicate Numbered(es: seq<Element>, name: string) {
    exists j, k :: 0 <= j < |es| && 1 <= k < Before(es, |es|, es[j].name) && name == Leaf(es[j].name, k)
  }

  /** `name` is the name of an accessible column of the row. */
  ghost predicate AccessibleColumn(children: seq<Child>, name: string) {
    exists j :: 0 <= j < |children| && children[j].column && children[j].accessible && children[j].name == name
  }

  lemma NumberedToken(es: seq<Element>, name: string) returns (i: nat)
    requires Numbered(es, name)
    ensures i < |es| && TokenOf(es, i).1 > 0 && name == Leaf(TokenOf(es, i).0, TokenOf(es, i).1)
  {
    hide Leaf;
    var j, k :| 0 <= j < |es| && 1 <= k < Before(es, |es|, es[j].name) && name == Leaf(es[j].name, k);
    i := NthOccurrence(es, |es|, es[j].name, k);
  }

  /** The parts of the key are pairwise distinct exactly when no index element is named like a numbered
      occurrence of another one. */
  lemma {:induction false} KeyPartsDistinct(es: seq<Element>)
    ensures Distinct(Names(Tokens(es, |es|))) <==> forall i | 0 <= i < |es| :: !Numbered(es, es[i].name)
  {
    hide Leaf;
    var ps := Tokens(es, |es|);
    TokensDistinct(es);
    NamesDistinct(ps);
    forall i, j | 0 <= i < |es| && 0 <= j < |es| && Clash(ps[i], ps[j])
      ensures Numbered(es, es[i].name)
    {
      BeforeGrows(es, j, |es|);
    }
    forall i | 0 <= i < |es| && Numbered(es, es[i].name)
      ensures exists i', j :: 0 <= i' < |es| && 0 <= j < |es| && Clash(ps[i'], ps[j])
    {
      BeforeGrows(es, i, |es|);
      var i' := NthOccurrence(es, |es|, es[i].name, 0);
      var j := NumberedToken(es, es[i].name);
      assert Clash(ps[i'], ps[j]);
    }
  }

  lemma LeafIsNumbered(es: seq<Element>, children: seq<Child>, j: nat)
    requires j < |Leafs(es, children)| && Leafs(es, children)[j].1 > 0
    ensures Numbered(es, Leaf(Leafs(es, children)[j].0, Leafs(es, children)[j].1))
  {
    LeafIsToken(es, children, j);
    var i :| 0 <= i < |es| && Leafs(es, children)[j] == TokenOf(es, i);
    BeforeGrows(es, i, |es|);
  }

  lemma LeafIsNamed(es: seq<Element>, children: seq<Child>, i: nat)
    requires i < |Leafs(es, children)|
    ensures var name := Leafs(es, children)[i].0;
      AccessibleColumn(children, name) || exists k :: 0 <= k < |es| && es[k].name == name
  {
    LeafIsToken(es, children, i);
  }

  lemma TokenIsLeaf(es: seq<Element>, children: seq<Child>, i: nat)
    requires WellFormed(es, children) && i < |es|
    ensures TokenOf(es, i) in Leafs(es, children)
  {
    ForeignMembers(es, |es|);
    ColumnarMembers(es, children, |children|);
    if es[i].local {
      var j :| 0 <= j < |children| && children[j].column && children[j].name == es[i].name;
      BeforeGrows(es, i, |es|);
      assert TokenOf(es, i).1 < Made(es, children[j]);
    }
  }

  /** Every index element and every accessible column has a leaf of its plain name. */
  lemma PlainLeaf(es: seq<Element>, children: seq<Child>, name: string)
    requires WellFormed(es, children)
    requires AccessibleColumn(children, name) || exists i :: 0 <= i < |es| && es[i].name == name
    ensures (name, 0) in Leafs(es, children)
  {
    if i :| 0 <= i < |es| && es[i].name == name {
      BeforeGrows(es, i, |es|);
      var k := NthOccurrence(es, |es|, name, 0);
      TokenIsLeaf(es, children, k);
    } else {
      ColumnarMembers(es, children, |children|);
      var j :| 0 <= j < |children| && children[j].column && children[j].accessible && children[j].name == name;
      assert Made(es, children[j]) > 0;
    }
  }

  lemma LeafsDistinct(es: seq<Element>, children: seq<Child>)
    requires WellFormed(es, children)
    ensures Distinct(Leafs(es, children))
  {
    ForeignMembers(es, |es|);
    ColumnarMembers(es, children, |children|);
    ColumnarDistinct(es, children, |children|);
    forall p, q | IsForeign(es, |es|, p) && IsColumnar(es, children, |children|, q)
      ensures p.0 != q.0
    {
    }
  }

  /** The leaf names of the list are pairwise distinct exactly when neither an index element nor an
      accessible column is named like a numbered occurrence of an index element. */
  lemma LeafNamesDistinct(es: seq<Element>, children: seq<Child>)
    requires WellFormed(es, children)
    ensures Distinct(Names(Leafs(es, children)))
      <==> forall name :: (exists i :: 0 <= i < |es| && es[i].name == name) || AccessibleColumn(children, name)
             ==> !Numbered(es, name)
  {
    hide Leaf, Numbered, AccessibleColumn, WellFormed;
    var ps := Leafs(es, children);
    LeafsDistinct(es, children);
    NamesDistinct(ps);
    forall i, j | 0 <= i < |ps| && 0 <= j < |ps| && Clash(ps[i], ps[j])
      ensures Numbered(es, ps[i].0)
      ensures AccessibleColumn(children, ps[i].0) || exists k :: 0 <= k < |es| && es[k].name == ps[i].0
    {
      LeafIsNumbered(es, children, j);
      LeafIsNamed(es, children, i);
    }
    forall name | Numbered(es, name)
        && (AccessibleColumn(children, name) || exists i :: 0 <= i < |es| && es[i].name == name)
      ensures exists i, j :: 0 <= i < |ps| && 0 <= j < |ps| && Clash(ps[i], ps[j])
    {
      var k := NumberedToken(es, name);
      TokenIsLeaf(es, children, k);
      PlainLeaf(es, children, name);
      var i :| 0 <= i < |ps| && ps[i] == (name, 0);
      var j :| 0 <= j < |ps| && ps[j] == TokenOf(es, k);
      assert Clash(ps[i], ps[j]);
    }
  }

  /** The three name inventions agree: the key reads back as its tokens and each token is the name of a
      leaf.  The tokens are pairwise distinct exactly when no index element, and the leafs exactly when
      moreover no accessible column, is named like a numbered occurrence of an index element. */
  lemma {:induction false} KeyAgreement(es: seq<Element>, children: seq<Child>)
    requires WellFormed(es, children)
    ensures var tokens := Names(Tokens(es, |es|)); var leafs := Names(Leafs(es, children));
      && (es != [] ==> Split(KeyText(es, |es|), ' ') == tokens)
      && (forall i | 0 <= i < |tokens| :: tokens[i] in leafs)
      && (Distinct(tokens) <==> forall i | 0 <= i < |es| :: !Numbered(es, es[i].name))
      && (Distinct(leafs)
          <==> Distinct(tokens) && forall name | AccessibleColumn(children, name) :: !Numbered(es, name))
  {
    if es != [] {
      KeyTextSplits(es, |es|);
    }
    KeyPartsDistinct(es);
    LeafNamesDistinct(es, children);
    forall i | 0 <= i < |es|
      ensures Names(Tokens(es, |es|))[i] in Names(Leafs(es, children))
    {
      TokenIsLeaf(es, children, i);
      var k :| 0 <= k < |Leafs(es, children)| && Leafs(es, children)[k] == TokenOf(es, i);
      assert Names(Leafs(es, children))[k] == Names(Tokens(es, |es|))[i];
    }
  }

  /** With descriptors as the SMI demands them, without underscore, all names are distinct. */
  lemma {:induction false} CleanNamesDistinct(es: seq<Element>, children: seq<Child>)
    requires WellFormed(es, children)
    requires forall i | 0 <= i < |es| :: '_' !in es[i].name
    requires forall j | 0 <= j < |children| :: '_' !in children[j].name
    ensures Distinct(Names(Tokens(es, |es|))) && Distinct(Names(Leafs(es, children)))
  {
    KeyAgreement(es, children);
    forall name | Numbered(es, name)
      ensures '_' in name
    {
      var j, k :| 0 <= j < |es| && 1 <= k < Before(es, |es|, es[j].name) && name == Leaf(es[j].name, k);
      assert name[|es[j].name|] == '_';
    }
  }

  /** The second occurrence of "a" and the column "a_2" get the same token. */
  lemma UnderscoreClash()
    ensures var es := [Element("a", true, true), Element("a", true, true), Element("a_2", true, true)];
      Names(Tokens(es, 3))[1] == Names(Tokens(es, 3))[2] == "a_2"
  {
  }

  lemma {:induction false} AgreementAt(es: seq<Element>, children: seq<Child>, name: string)
    requires WellFormed(es, children) && AccessibleColumn(children, name) && Numbered(es, name)
    requires forall i | 0 <= i < |es| :: !Numbered(es, es[i].name)
    ensures Distinct(Names(Tokens(es, |es|))) && !Distinct(Names(Leafs(es, children)))
  {
    hide WellFormed, Names, Tokens, Leafs, Numbered, AccessibleColumn, Distinct;
    KeyAgreement(es, children);
  }

  lemma TwoOfOne(es: seq<Element>)
    requires es == [Element("a", true, true), Element("a", true, true)]
    ensures Numbered(es, "a_2") && !Numbered(es, "a")
  {
    assert Before(es, 0, "a") == 0 && Before(es, 1, "a") == 1 && Before(es, 2, "a") == 2;
    assert Dec(2) == ['2'];
    assert Leaf(es[0].name, 1) == "a_2";
    forall k | k > 0
      ensures Leaf("a", k) != "a"
    {
      assert |Leaf("a", k)| > 1;
    }
  }

  /** The key of a row with "a" twice is fine, but an accessible column "a_2" outside the index gets a
      leaf of the same name as the second "a". */
  lemma UnderscoreLeafClash()
    ensures var es := [Element("a", true, true), Element("a", true, true)];
      var children := [Child("a", true, true), Child("a_2", true, true)];
      WellFormed(es, children) && Distinct(Names(Tokens(es, 2))) && !Distinct(Names(Leafs(es, children)))
  {
    var es := [Element("a", true, true), Element("a", true, true)];
    var children := [Child("a", true, true), Child("a_2", true, true)];
    assert children[0].name == "a" && children[1].name == "a_2";
    TwoOfOne(es);
    assert AccessibleColumn(children, "a_2");
    AgreementAt(es, children, "a_2");
  }

  // ---------- the order of the leafs ----------

  /** `from` says of which element each of these leafrefs is, ascending. */
  ghost predicate ElementsInOrder(es: seq<Element>, ps: seq<Occurrence>, from: seq<nat>) {
    && |from| == |ps|
    && (forall i, j | 0 <= i < j < |from| :: from[i] < from[j])
    && forall i | 0 <= i < |from| ::
         from[i] < |es| && es[from[i]].column && !es[from[i]].local && ps[i] == TokenOf(es, from[i])
  }

  lemma ElementsInOrderNext(es: seq<Element>, ps: seq<Occurrence>, from: seq<nat>, e: nat)
    requires ElementsInOrder(es, ps, from) && e < |es| && es[e].column && !es[e].local
    requires forall i | 0 <= i < |from| :: from[i] < e
    ensures ElementsInOrder(es, ps + [TokenOf(es, e)], from + [e])
    ensures forall i | 0 <= i < |from + [e]| :: (from + [e])[i] < e + 1
  {
    hide TokenOf;
  }

  lemma NoElements(es: seq<Element>)
    ensures ElementsInOrder(es, [], [])
  {
  }

  /** The leafrefs follow the order of the index. */
  lemma {:induction false} ForeignOrder(es: seq<Element>, c: nat) returns (from: seq<nat>)
    requires c <= |es|
    ensures ElementsInOrder(es, Foreign(es, c), from) && forall i | 0 <= i < |from| :: from[i] < c
  {
    hide ElementsInOrder, TokenOf;
    if c == 0 {
      from := [];
      NoElements(es);
    } else {
      from := ForeignOrder(es, c - 1);
      if es[c - 1].column && !es[c - 1].local {
        ElementsInOrderNext(es, Foreign(es, c - 1), from, c - 1);
        from := from + [c - 1];
      } else {
        assert Foreign(es, c) == Foreign(es, c - 1);
      }
    }
  }

  /** `from` says of which child each of these leafs is, ascending, and within one child with ascending
      numbers. */
  ghost predicate ColumnsInOrder(children: seq<Child>, ps: seq<Occurrence>, from: seq<nat>) {
    && |from| == |ps|
    && (forall i | 0 <= i < |from| ::
         from[i] < |children| && children[from[i]].column && ps[i].0 == children[from[i]].name)
    && forall i, j | 0 <= i < j < |from| :: from[i] < from[j] || (from[i] == from[j] && ps[i].1 < ps[j].1)
  }

  lemma ColumnsInOrderNext(children: seq<Child>, ps: seq<Occurrence>, from: seq<nat>, c: nat, m: nat)
    requires ColumnsInOrder(children, ps, from) && c < |children| && children[c].column
    requires forall i | 0 <= i < |from| :: from[i] < c
    ensures var more := from + seq(m, _ => c);
      && ColumnsInOrder(children, ps + Copies(children[c].name, m), more)
      && forall i | 0 <= i < |more| :: more[i] < c + 1
  {
  }

  lemma NoColumns(children: seq<Child>)
    ensures ColumnsInOrder(children, [], [])
  {
  }

  /** The leafs of the columns follow the order of the children, and within one child the numbers of the
      occurrences. */
  lemma {:induction false} ColumnarOrder(es: seq<Element>, children: seq<Child>, c: nat) returns (from: seq<nat>)
    requires c <= |children|
    ensures ColumnsInOrder(children, Columnar(es, children, c), from) && forall i | 0 <= i < |from| :: from[i] < c
  {
    hide ColumnsInOrder, Made, Copies;
    if c == 0 {
      from := [];
      NoColumns(children);
    } else {
      from := ColumnarOrder(es, children, c - 1);
      if children[c - 1].column {
        ColumnsInOrderNext(children, Columnar(es, children, c - 1), from, c - 1, Made(es, children[c - 1]));
        from := from + seq(Made(es, children[c - 1]), _ => c - 1);
      } else {
        assert Columnar(es, children, c) == Columnar(es, children, c - 1);
      }
    }
  }

  /** The list's leafs: first the leafrefs in the order of the index, then the row's own columns in their
      order, repeated ones with ascending numbers. */
  lemma LeafOrder(es: seq<Element>, children: seq<Child>) returns (n: nat, elements: seq<nat>, columns: seq<nat>)
    ensures n <= |Leafs(es, children)|
    ensures ElementsInOrder(es, Leafs(es, children)[..n], elements)
    ensures ColumnsInOrder(children, Leafs(es, children)[n..], columns)
  {
    hide ElementsInOrder, ColumnsInOrder, Foreign, Columnar;
    n := |Foreign(es, |es|)|;
    elements := ForeignOrder(es, |es|);
    columns := ColumnarOrder(es, children, |children|);
    assert Leafs(es, children)[..n] == Foreign(es, |es|);
    assert Leafs(es, children)[n..] == Columnar(es, children, |children|);
  }
}
