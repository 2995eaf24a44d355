/** Moving the selected rows of the varbind list up and down. */
module VarbindMoves {
  import opened Seqs

  /** A row of the list widget. */
  type Item = nat

  /** The rows of `s` that are (or are not) selected, in order. */
  function Picked(s: seq<Item>, sel: set<Item>, wanted: bool): seq<Item> {
    if s == [] then []
    else (if (s[0] in sel) == wanted then [s[0]] else []) + Picked(s[1..], sel, wanted)
  }

  /** The rows `rest` behind the row `u`, when `u` is passed by the run of selected rows after it. */
  function UpFrom(u: Item, rest: seq<Item>, sel: set<Item>): (r: seq<Item>)
    ensures |r| == |rest| + 1
    decreases |rest|
  {
    if rest == [] then [u]
    else if rest[0] in sel then [rest[0]] + UpFrom(u, rest[1..], sel)
    else [u] + UpFrom(rest[0], rest[1..], sel)
  }

  /** The list after moving up: every run of selected rows passes the unselected row in front of it. */
  function Up(s: seq<Item>, sel: set<Item>): (r: seq<Item>)
    ensures |r| == |s|
  {
    if s == [] then [] else UpFrom(s[0], s[1..], sel)
  }

  /** The list after moving down. */
  function Down(s: seq<Item>, sel: set<Item>): (r: seq<Item>)
    ensures |r| == |s|
  {
    if |s| <= 1 then s
    else
      var d := Down(s[1..], sel);
      if s[0] in sel then [d[0], s[0]] + d[1..] else [s[0]] + d
  }

  function IndexOf(s: seq<Item>, x: Item): (k: nat)
    requires x in s
    ensures k < |s| && s[k] == x
  {
    if s[0] == x then 0 else IndexOf(s[1..], x) + 1
  }

  function TakeInsert(s: seq<Item>, idx: nat, to: nat): seq<Item>
    requires idx < |s| && to < |s|
  {
    var t := s[..idx] + s[idx + 1..];
    t[..to] + [s[idx]] + t[to..]
  }

  // ---------- facts about the moved lists ----------

  lemma {:induction false} UpFromKeepsItems(u: Item, rest: seq<Item>, sel: set<Item>)
    ensures multiset(UpFrom(u, rest, sel)) == multiset{u} + multiset(rest)
    decreases |rest|
  {
    if rest != [] {
      assert rest == [rest[0]] + rest[1..];
      UpFromKeepsItems(if rest[0] in sel then u else rest[0], rest[1..], sel);
    }
  }

  lemma UpKeepsItems(s: seq<Item>, sel: set<Item>)
    ensures multiset(Up(s, sel)) == multiset(s)
  {
    if s != [] {
      UpFromKeepsItems(s[0], s[1..], sel);
      assert s == [s[0]] + s[1..];
    }
  }

  lemma DownFirst(s: seq<Item>, d: seq<Item>, selected: bool)
    requires s != [] && d != [] && multiset(d) == multiset(s[1..])
    ensures multiset(if selected then [d[0], s[0]] + d[1..] else [s[0]] + d) == multiset(s)
  {
    assert s == [s[0]] + s[1..] && d == [d[0]] + d[1..];
  }

  lemma {:induction false} DownKeepsItems(s: seq<Item>, sel: set<Item>)
    ensures multiset(Down(s, sel)) == multiset(s)
  {
    if |s| > 1 {
      DownKeepsItems(s[1..], sel);
      DownFirst(s, Down(s[1..], sel), s[0] in sel);
    }
  }

  /** Put `x` in front of the last element. */
  function BeforeLast(r: seq<Item>, x: Item): seq<Item>
    requires r != []
  {
    r[..|r| - 1] + [x] + [r[|r| - 1]]
  }

  lemma {:induction false} UpFromSnoc(u: Item, rest: seq<Item>, x: Item, sel: set<Item>)
    ensures var r := UpFrom(u, rest, sel);
      UpFrom(u, rest + [x], sel) == if x in sel then BeforeLast(r, x) else r + [x]
    decreases |rest|
  {
    if rest == [] {
      assert rest + [x] == [x] && [x][1..] == [];
    } else {
      assert (rest + [x])[1..] == rest[1..] + [x];
      UpFromSnoc(if rest[0] in sel then u else rest[0], rest[1..], x, sel);
    }
  }

  /** Moving up one more row: a selected row at the end passes the row in front of it. */
  lemma UpSnoc(s: seq<Item>, x: Item, sel: set<Item>)
    requires s != []
    ensures Up(s + [x], sel) == if x in sel then BeforeLast(Up(s, sel), x) else Up(s, sel) + [x]
  {
    assert (s + [x])[1..] == s[1..] + [x];
    UpFromSnoc(s[0], s[1..], x, sel);
  }

  /** Rows that are not selected are appended unchanged. */
  lemma {:induction false} UpTo(s: seq<Item>, c: nat, p: nat, sel: set<Item>)
    requires c <= p <= |s| && forall i | c <= i < p :: s[i] !in sel
    ensures Up(s[..p], sel) == Up(s[..c], sel) + s[c..p]
    decreases p
  {
    if c < p {
      UpTo(s, c, p - 1, sel);
      if p > 1 {
        UpSnoc(s[..p - 1], s[p - 1], sel);
        assert s[..p - 1] + [s[p - 1]] == s[..p];
      }
    }
  }

  lemma UpPast(s: seq<Item>, p: nat, sel: set<Item>)
    requires 0 < p < |s| && s[p] in sel
    ensures Up(s[..p + 1], sel) + s[p + 1..] == TakeInsert(Up(s[..p], sel) + s[p..], p, p - 1)
  {
    hide Up;
    UpSnoc(s[..p], s[p], sel);
    assert s[..p] + [s[p]] == s[..p + 1];
    var u := Up(s[..p], sel);
    assert (u + s[p..])[..p] + (u + s[p..])[p + 1..] == u + s[p + 1..];
  }

  lemma NextPicked(s: seq<Item>, c: nat, sel: set<Item>) returns (p: nat)
    requires c <= |s| && Picked(s[c..], sel, true) != []
    ensures c <= p < |s| && s[p] in sel && forall i | c <= i < p :: s[i] !in sel
    ensures Picked(s[c..], sel, true) == [s[p]] + Picked(s[p + 1..], sel, true)
    decreases |s| - c
  {
    if s[c] in sel {
      p := c;
    } else {
      assert s[c..][1..] == s[c + 1..];
      p := NextPicked(s, c + 1, sel);
    }
  }

  lemma {:induction false} NothingPicked(s: seq<Item>, c: nat, sel: set<Item>)
    requires c <= |s| && Picked(s[c..], sel, true) == []
    ensures forall i | c <= i < |s| :: s[i] !in sel
    decreases |s| - c
  {
    if c < |s| {
      assert s[c..][1..] == s[c + 1..];
      NothingPicked(s, c + 1, sel);
    }
  }

  lemma {:induction false} PickedAre(s: seq<Item>, sel: set<Item>)
    ensures forall x :: x in Picked(s, sel, true) <==> x in s && x in sel
  {
    if s != [] {
      PickedAre(s[1..], sel);
    }
  }

  /** A row stands where its only occurrence is. */
  lemma {:induction false} IndexIs(s: seq<Item>, p: nat)
    requires p < |s| && forall i | 0 <= i < p :: s[i] != s[p]
    ensures IndexOf(s, s[p]) == p
  {
    if p > 0 {
      IndexIs(s[1..], p - 1);
    }
  }

  lemma UpIndex(s: seq<Item>, p: nat, sel: set<Item>)
    requires p < |s| && Distinct(s)
    ensures var t := Up(s[..p], sel) + s[p..]; t[p] == s[p] && IndexOf(t, s[p]) == p
  {
    var t := Up(s[..p], sel) + s[p..];
    UpKeepsItems(s[..p], sel);
    forall i | 0 <= i < p
      ensures t[i] != s[p]
    {
      assert t[i] in multiset(Up(s[..p], sel));
      assert t[i] in s[..p];
    }
    IndexIs(t, p);
  }

  function Last(s: seq<Item>): Item
    requires s != []
  {
    s[|s| - 1]
  }

  lemma {:induction false} PickedSnoc(s: seq<Item>, x: Item, sel: set<Item>)
    ensures Picked(s + [x], sel, true) == Picked(s, sel, true) + (if x in sel then [x] else [])
  {
    if s == [] {
      assert s + [x] == [x] && [x][1..] == [];
    } else {
      assert (s + [x])[1..] == s[1..] + [x];
      PickedSnoc(s[1..], x, sel);
    }
  }

  lemma LastPicked(s: seq<Item>, c: nat, sel: set<Item>) returns (p: nat)
    requires c <= |s| && Picked(s[..c], sel, true) != []
    ensures p < c && s[p] in sel && forall i | p < i < c :: s[i] !in sel
    ensures Picked(s[..c], sel, true) == Picked(s[..p], sel, true) + [s[p]]
    decreases c
  {
    assert c > 0;
    assert s[..c] == s[..c - 1] + [s[c - 1]];
    PickedSnoc(s[..c - 1], s[c - 1], sel);
    if s[c - 1] in sel {
      p := c - 1;
    } else {
      p := LastPicked(s, c - 1, sel);
    }
  }

  /** Rows that are not selected stay in front of what moves. */
  lemma {:induction false} DownTo(s: seq<Item>, p: nat, c: nat, sel: set<Item>)
    requires p <= c <= |s| && forall i | p <= i < c :: s[i] !in sel
    ensures Down(s[p..], sel) == s[p..c] + Down(s[c..], sel)
    decreases c - p
  {
    if p < c {
      DownTo(s, p + 1, c, sel);
      assert s[p..][1..] == s[p + 1..];
      assert s[p..c] == [s[p]] + s[p + 1..c];
    }
  }

  lemma {:induction false} DownPast(s: seq<Item>, p: nat, sel: set<Item>)
    requires p + 1 < |s| && s[p] in sel
    ensures s[..p] + Down(s[p..], sel) == TakeInsert(s[..p + 1] + Down(s[p + 1..], sel), p, p + 1)
  {
  }

  lemma DownIndex(s: seq<Item>, p: nat, sel: set<Item>)
    requires p < |s| && Distinct(s)
    ensures var t := s[..p + 1] + Down(s[p + 1..], sel); t[p] == s[p] && IndexOf(t, s[p]) == p
  {
    IndexIs(s[..p + 1] + Down(s[p + 1..], sel), p);
  }

  lemma {:induction false} DownNothing(s: seq<Item>, sel: set<Item>)
    ensures s[..|s|] == s && s[..|s|] + Down(s[|s|..], sel) == s
  {
  }

  lemma {:induction false} NothingPickedBefore(s: seq<Item>, c: nat, sel: set<Item>)
    requires c <= |s| && Picked(s[..c], sel, true) == []
    ensures forall i | 0 <= i < c :: s[i] !in sel
  {
    PickedAre(s[..c], sel);
    forall i | 0 <= i < c
      ensures s[i] !in sel
    {
      assert s[..c][i] == s[i];
    }
  }

  lemma {:induction false} DownFinished(s: seq<Item>, sel: set<Item>, picked: seq<Item>, c: nat)
    requires c <= |s| && Picked(s[..c], sel, true) == [] && picked == Picked(s, sel, true)
    requires forall x | x in sel :: x in s
    ensures s[..c] + Down(s[c..], sel) == Down(s, sel)
    ensures (set x | x in picked) == sel
    ensures c == |s| && s != [] ==> Last(s) !in sel
  {
    NothingPickedBefore(s, c, sel);
    DownTo(s, 0, c, sel);
    assert s[0..] == s && s[0..c] == s[..c];
    PickedAre(s, sel);
  }

  lemma UpNothing(s: seq<Item>, sel: set<Item>)
    ensures s[0..] == s && Up(s[..0], sel) + s[0..] == s
  {
  }

  lemma {:induction false} UpFinished(s: seq<Item>, sel: set<Item>, picked: seq<Item>, c: nat)
    requires c <= |s| && Picked(s[c..], sel, true) == [] && picked == Picked(s, sel, true)
    requires forall x | x in sel :: x in s
    ensures Up(s[..c], sel) + s[c..] == Up(s, sel)
    ensures (set x | x in picked) == sel
    ensures c == 0 && s != [] ==> s[0] !in sel
  {
    NothingPicked(s, c, sel);
    UpTo(s, c, |s|, sel);
    assert s[..|s|] == s && s[c..|s|] == s[c..];
    PickedAre(s, sel);
  }

  class VarbindList {
    var items: seq<Item>
    var selected: set<Item>

    ghost predicate Valid()
      reads this
    {
      Distinct(items) && forall x | x in selected :: x in items
    }

    constructor (rows: seq<Item>)
      requires Distinct(rows)
      ensures Valid() && items == rows && selected == {}
    {
      items, selected := rows, {};
    }

    /** Move one row next to the row at index `to`; the first row that moves clears the selection. */
    method Shift(idx: nat, to: nat, cleared: bool)
      requires idx < |items| && to < |items|
      modifies this
      ensures items == TakeInsert(old(items), idx, to)
      ensures selected == (if cleared then old(selected) else {}) + {old(items)[idx]}
    {
      if !cleared {
        selected := {};
      }
      var item := items[idx];
      items := items[..idx] + items[idx + 1..];
      items := items[..to] + [item] + items[to..];
      selected := selected + {item};
    }

    /** One turn of the upward loop for the first row picked from position `c` on. */
    method UpStep(ghost s: seq<Item>, ghost sel: set<Item>, ghost c: nat, x: Item, cleared: bool)
      returns (moved: bool, ghost p: nat)
      requires Distinct(s) && c <= |s| && items == Up(s[..c], sel) + s[c..]
      requires Picked(s[c..], sel, true) != [] && x == Picked(s[c..], sel, true)[0]
      modifies this
      ensures c <= p < |s| && Picked(s[c..], sel, true) == [x] + Picked(s[p + 1..], sel, true)
      ensures moved <==> p > 0
      ensures p == 0 ==> s[0] in sel && items == old(items) && selected == old(selected)
      ensures p > 0 && c == 0 ==> s[0] !in sel
      ensures moved ==> items == Up(s[..p + 1], sel) + s[p + 1..]
      ensures moved ==> selected == (if cleared then old(selected) else {}) + {x}
    {
      hide Up, Picked, IndexOf, TakeInsert, Distinct;
      p := NextPicked(s, c, sel);
      UpTo(s, c, p, sel);
      assert s[c..] == s[c..p] + s[p..];
      assert items == Up(s[..p], sel) + s[p..];
      UpIndex(s, p, sel);
      var idx := IndexOf(items, x);
      var previdx: int := idx as int - 1;
      moved := previdx >= 0;
      if moved {
        UpPast(s, p, sel);
        Shift(idx, previdx, cleared);
      }
    }

    /** `VarbindsMoveUp`: nothing happens when the first row is selected; otherwise all selected rows
        move.  The selection stays. */
    method MoveUp()
      requires Valid()
      modifies this
      ensures Valid() && selected == old(selected)
      ensures items == if |old(items)| > 0 && old(items)[0] in selected then old(items) else Up(old(items), selected)
    {
      hide Up, Picked, Distinct;
      ghost var s, sel := items, selected;
      var picked := Picked(items, selected, true);
      var moved := true;
      var i := 0;
      ghost var c: nat := 0;
      UpNothing(s, sel);
      while i < |picked| && moved
        invariant i <= |picked| && c <= |s| && items == Up(s[..c], sel) + s[c..]
        invariant moved ==> picked[i..] == Picked(s[c..], sel, true)
        invariant i == 0 ==> c == 0 && selected == sel
        invariant !moved ==> i == 0 && s != [] && s[0] in sel
        invariant i > 0 ==> c > 0 && s[0] !in sel && selected == (set x | x in picked[..i])
        decreases |picked| - i, moved
      {
        ghost var p;
        moved, p := UpStep(s, sel, c, picked[i], i > 0);
        if moved {
          assert picked[..i + 1] == picked[..i] + [picked[i]];
          i, c := i + 1, p + 1;
        }
      }
      if moved {
        UpFinished(s, sel, picked, c);
        assert picked[..i] == picked;
      }
      UpKeepsItems(s[..c], sel);
      assert s == s[..c] + s[c..];
      SameDistinct(s, items);
      SameElements(s, items);
    }

    /** One turn of the downward loop for the last row picked in front of position `c`. */
    method DownStep(ghost s: seq<Item>, ghost sel: set<Item>, ghost c: nat, x: Item, cleared: bool)
      returns (moved: bool, ghost p: nat)
      requires Distinct(s) && c <= |s| && items == s[..c] + Down(s[c..], sel)
      requires Picked(s[..c], sel, true) != [] && x == Last(Picked(s[..c], sel, true))
      modifies this
      ensures p < c && Picked(s[..c], sel, true) == Picked(s[..p], sel, true) + [x]
      ensures moved <==> p + 1 < |s|
      ensures p + 1 == |s| ==> s[|s| - 1] in sel && items == old(items) && selected == old(selected)
      ensures p + 1 < |s| && c == |s| ==> s[|s| - 1] !in sel
      ensures moved ==> items == s[..p] + Down(s[p..], sel)
      ensures moved ==> selected == (if cleared then old(selected) else {}) + {x}
    {
      hide Down, Picked, IndexOf, TakeInsert, Distinct;
      p := LastPicked(s, c, sel);
      DownTo(s, p + 1, c, sel);
      assert s[..c] == s[..p + 1] + s[p + 1..c];
      assert items == s[..p + 1] + Down(s[p + 1..], sel);
      DownIndex(s, p, sel);
      var idx := IndexOf(items, x);
      moved := idx + 1 < |items|;
      if moved {
        DownPast(s, p, sel);
        Shift(idx, idx + 1, cleared);
      }
    }

    /** `VarbindsMoveDown`: nothing happens when the last row is selected; otherwise all selected rows
        move.  The selection stays. */
    method MoveDown()
      requires Valid()
      modifies this
      ensures Valid() && selected == old(selected)
      ensures items
        == if |old(items)| > 0 && Last(old(items)) in selected then old(items) else Down(old(items), selected)
    {
      hide Down, Picked, Distinct;
      ghost var s, sel := items, selected;
      var picked := Picked(items, selected, true);
      var moved := true;
      var i := |picked|;
      ghost var c: nat := |s|;
      DownNothing(s, sel);
      while i > 0 && moved
        invariant 0 <= i <= |picked| && c <= |s| && items == s[..c] + Down(s[c..], sel)
        invariant moved ==> picked[..i] == Picked(s[..c], sel, true)
        invariant i == |picked| ==> c == |s| && selected == sel
        invariant !moved ==> i == |picked| && s != [] && Last(s) in sel
        invariant i < |picked| ==> c < |s| && Last(s) !in sel && selected == (set x | x in picked[i..])
        decreases i, moved
      {
        ghost var p;
        moved, p := DownStep(s, sel, c, picked[i - 1], i < |picked|);
        if moved {
          assert picked[i - 1..] == [picked[i - 1]] + picked[i..];
          assert picked[..i] == picked[..i - 1] + [picked[i - 1]];
          i, c := i - 1, p;
        }
      }
      if moved {
        DownFinished(s, sel, picked, c);
        assert picked[i..] == picked;
      }
      DownKeepsItems(s[c..], sel);
      assert s == s[..c] + s[c..];
      SameDistinct(s, items);
      SameElements(s, items);
    }
  }

  // ---------- main results ----------

  /** Moving up shows the same rows. */
  lemma {:induction false} UpPermutes(s: seq<Item>, sel: set<Item>)
    ensures multiset(Up(s, sel)) == multiset(s) && multiset(Down(s, sel)) == multiset(s)
  {
    UpKeepsItems(s, sel);
    DownKeepsItems(s, sel);
  }

  lemma {:induction false} UpFromPositions(u: Item, rest: seq<Item>, sel: set<Item>, k: nat)
    requires k < |rest| && rest[k] in sel
    ensures UpFrom(u, rest, sel)[k] == rest[k]
    decreases |rest|
  {
    if k > 0 {
      UpFromPositions(if rest[0] in sel then u else rest[0], rest[1..], sel, k - 1);
    }
  }

  lemma {:induction false} UpFromOrder(u: Item, rest: seq<Item>, sel: set<Item>, wanted: bool)
    requires u !in sel
    ensures Picked(UpFrom(u, rest, sel), sel, wanted) == Picked([u] + rest, sel, wanted)
    decreases |rest|
  {
    assert ([u] + rest)[1..] == rest;
    if rest == [] {
      assert [u] + rest == [u];
    } else {
      var v := if rest[0] in sel then u else rest[0];
      UpFromOrder(v, rest[1..], sel, wanted);
      assert ([v] + rest[1..])[1..] == rest[1..];
      assert UpFrom(u, rest, sel)[1..] == UpFrom(v, rest[1..], sel);
    }
  }

  /** Unless the first row is selected, moving up takes every selected row up by exactly one place,
      and keeps the order among the selected rows and among the others. */
  lemma {:induction false} UpMoves(s: seq<Item>, sel: set<Item>)
    requires s != [] && s[0] !in sel
    ensures forall k | 0 < k < |s| && s[k] in sel :: Up(s, sel)[k - 1] == s[k]
    ensures forall wanted :: Picked(Up(s, sel), sel, wanted) == Picked(s, sel, wanted)
  {
    forall k | 0 < k < |s| && s[k] in sel
      ensures Up(s, sel)[k - 1] == s[k]
    {
      UpFromPositions(s[0], s[1..], sel, k - 1);
    }
    forall wanted
      ensures Picked(Up(s, sel), sel, wanted) == Picked(s, sel, wanted)
    {
      UpFromOrder(s[0], s[1..], sel, wanted);
      assert [s[0]] + s[1..] == s;
    }
  }

  lemma {:induction false} DownUndoesUpFrom(u: Item, rest: seq<Item>, sel: set<Item>)
    requires u !in sel
    ensures Down(UpFrom(u, rest, sel), sel) == [u] + rest
    decreases |rest|
  {
    if rest != [] {
      var v := if rest[0] in sel then u else rest[0];
      var t := UpFrom(u, rest, sel);
      DownUndoesUpFrom(v, rest[1..], sel);
      assert t[1..] == UpFrom(v, rest[1..], sel);
    }
  }

  /** Moving down undoes moving up, unless the first row is selected. */
  lemma {:induction false} DownUndoesUp(s: seq<Item>, sel: set<Item>)
    requires s != [] ==> s[0] !in sel
    ensures Down(Up(s, sel), sel) == s
  {
    if s != [] {
      DownUndoesUpFrom(s[0], s[1..], sel);
    }
  }

  /** Moving up undoes moving down, unless the last row is selected; and the first row is then not
      selected, so the move up is not refused. */
  lemma {:induction false} UpUndoesDown(s: seq<Item>, sel: set<Item>)
    requires s != [] ==> Last(s) !in sel
    ensures Up(Down(s, sel), sel) == s
    ensures s != [] ==> Down(s, sel)[0] !in sel
  {
    if |s| > 1 {
      UpUndoesDown(s[1..], sel);
      var d := Down(s[1..], sel);
      assert d == [d[0]] + d[1..];
      assert s == [s[0]] + s[1..];
    }
  }

  lemma {:induction false} DownPositions(s: seq<Item>, sel: set<Item>, k: nat)
    requires s != [] && Last(s) !in sel && k < |s| && s[k] in sel
    ensures k + 1 < |s| && Down(s, sel)[k + 1] == s[k]
  {
    if k > 0 {
      DownPositions(s[1..], sel, k - 1);
    }
  }

  /** Unless the last row is selected, moving down takes every selected row down by exactly one place,
      and keeps the order among the selected rows and among the others. */
  lemma {:induction false} DownMoves(s: seq<Item>, sel: set<Item>)
    requires s != [] && Last(s) !in sel
    ensures forall k | 0 <= k < |s| && s[k] in sel :: k + 1 < |s| && Down(s, sel)[k + 1] == s[k]
    ensures forall wanted :: Picked(Down(s, sel), sel, wanted) == Picked(s, sel, wanted)
  {
    forall k | 0 <= k < |s| && s[k] in sel
      ensures k + 1 < |s| && Down(s, sel)[k + 1] == s[k]
    {
      DownPositions(s, sel, k);
    }
    UpUndoesDown(s, sel);
    UpMoves(Down(s, sel), sel);
  }
}
