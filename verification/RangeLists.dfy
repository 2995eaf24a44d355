/** `smiCheckTypeRanges` and `smiCheckValueType` on the linked list they work on.  A cell of the
    list and the range it points to are one object here; the parser allocates them together. */
module RangeLists {
  import opened SmiValues
  import opened Ranges
  import opened RangeMeaning
  import opened Seqs

  class RangeCell {
    var minValue: Value
    var maxValue: Value
    var nextPtr: RangeCell?

    constructor (r: Range)
      ensures minValue == r.min && maxValue == r.max && nextPtr == null
    {
      minValue, maxValue, nextPtr := r.min, r.max, null;
    }

    function Get(): Range
      reads this`minValue, this`maxValue
    {
      Range(minValue, maxValue)
    }
  }

  ghost function At(cells: seq<RangeCell>, i: nat): RangeCell? {
    if i < |cells| then cells[i] else null
  }

  /** From position `n` on, the cells are chained in order up to the null pointer. */
  ghost predicate ChainedFrom(cells: seq<RangeCell>, n: nat)
    reads cells`nextPtr
  {
    forall i {:trigger cells[i].nextPtr} | n <= i < |cells| :: cells[i].nextPtr == At(cells, i + 1)
  }

  /** `first` heads an acyclic list of exactly these cells. */
  ghost predicate Linked(cells: seq<RangeCell>, first: RangeCell?)
    reads cells`nextPtr
  {
    first == At(cells, 0) && Distinct(cells) && ChainedFrom(cells, 0)
  }

  ghost function Gets(cells: seq<RangeCell>): (rs: seq<Range>)
    reads cells`minValue, cells`maxValue
    ensures |rs| == |cells| && forall i | 0 <= i < |cells| :: rs[i] == cells[i].Get()
  {
    if cells == [] then [] else [cells[0].Get()] + Gets(cells[1..])
  }

  lemma {:induction false} GetsPrefix(a: seq<RangeCell>, k: nat)
    requires k <= |a|
    ensures Gets(a[..k]) == Gets(a)[..k]
  {
  }

  lemma {:induction false} GetsAppend(a: seq<RangeCell>, p: RangeCell)
    ensures Gets(a + [p]) == Gets(a) + [p.Get()]
  {
  }

  lemma {:induction false} GetsPrepend(a: seq<RangeCell>, p: RangeCell)
    ensures Gets([p] + a) == [p.Get()] + Gets(a)
  {
  }

  lemma InsertFirstIs(list: seq<Range>, p: Range)
    requires list != [] && CompareValues(p.min, list[0].min) <= 0
    ensures Insert(list, p) == [p] + list
    ensures InsertReports(list, p) == When(CompareValues(p.max, list[0].min) >= 0, Overlap) + [NotAscending]
  {
  }

  lemma {:induction false} InsertLaterIs(list: seq<Range>, p: Range)
    requires list != [] && CompareValues(p.min, list[0].min) > 0
    ensures var k := FindAfter(list, p, 0);
      && Insert(list, p) == (if k + 1 < |list| then list[..k + 1] else list + [p])
      && InsertReports(list, p) ==
        When((k + 1 < |list| && CompareValues(p.max, list[k + 1].min) >= 0)
             || CompareValues(p.min, list[k].max) <= 0, Overlap)
        + When(k + 1 < |list|, NotAscending)
  {
  }

  /** The cells `rest` are still chained in order, starting at `p`, and hold the declared ranges. */
  ghost predicate Pending(rest: seq<RangeCell>, input: seq<Range>, p: RangeCell?)
    reads rest
  {
    Linked(rest, p) && Gets(rest) == input
  }

  lemma PendingHead(rest: seq<RangeCell>, input: seq<Range>, p: RangeCell?)
    requires Pending(rest, input, p) && rest != []
    ensures p == rest[0] && |rest| == |input| && forall i | 0 <= i < |rest[1..]| :: rest[1..][i] != p
  {
  }

  ghost predicate Disjoint(cells: seq<RangeCell>, rest: seq<RangeCell>) {
    forall i, j | 0 <= i < |cells| && 0 <= j < |rest| :: cells[i] != rest[j]
  }

  lemma MergeOnce(list: seq<Range>, d: nat)
    requires d < |list|
    ensures if d + 1 < |list| && Touching(list[d], list[d + 1]) then
        var joined := list[..d] + [Range(list[d].min, list[d + 1].max)] + list[d + 2..];
        joined[..d] == list[..d] && Merge(joined[d..]) == Merge(list[d..])
      else list[..d] + Merge(list[d..]) == list[..d + 1] + Merge(list[d + 1..])
  {
    hide CompareValues;
    var rest := list[d..];
    assert list[d + 1..] == rest[1..];
    assert list[..d + 1] == list[..d] + [list[d]];
    if d + 1 < |list| {
      var joined := list[..d] + [Range(list[d].min, list[d + 1].max)] + list[d + 2..];
      assert joined[d..] == [Range(rest[0].min, rest[1].max)] + rest[2..];
    }
  }

  lemma InsertIntoNothing(r: Range)
    ensures Insert([], r) == [r] && InsertReports([], r) == []
  {
  }

  lemma JustOne(p: RangeCell)
    ensures Gets([p]) == [p.Get()] && Gets([]) == []
    ensures p.nextPtr == null ==> Linked([p], p)
  {
  }

  lemma {:induction false} NothingTaken(base: BaseType, input: seq<Range>)
    ensures SortAll(PrepareAll(base, input[..0])) == [] && RunReports(base, input[..0]) == []
    ensures Gets([]) == []
  {
  }

  lemma {:induction false} TakeOne(base: BaseType, input: seq<Range>, n: nat)
    requires n < |input|
    ensures var r := Prepare(base, input[n]); var list := SortAll(PrepareAll(base, input[..n]));
      && SortAll(PrepareAll(base, input[..n + 1])) == Insert(list, r)
      && RunReports(base, input[..n + 1])
        == RunReports(base, input[..n]) + (PrepareReports(base, input[n]) + InsertReports(list, r))
  {
    hide Insert, InsertReports, Prepare, PrepareReports, PrepareAll;
    assert input[..n + 1][..n] == input[..n];
    PreparePrefix(base, input[..n + 1]);
  }

  class RangeType {
    const basetype: BaseType
    var listPtr: RangeCell?
    ghost var cells: seq<RangeCell>

    constructor (base: BaseType)
      ensures Valid() && basetype == base && cells == []
    {
      basetype, listPtr, cells := base, null, [];
    }

    ghost predicate Valid()
      reads this, cells
    {
      Linked(cells, listPtr)
    }

    ghost function Contents(): seq<Range>
      reads this, cells
    {
      Gets(cells)
    }

    method SetBase(p: RangeCell, base: BaseType)
      modifies p`minValue, p`maxValue
      ensures p.Get() == Range(Value(base, old(p.minValue.bits)), Value(base, old(p.maxValue.bits)))
    {
      p.minValue, p.maxValue := p.minValue.(base := base), p.maxValue.(base := base);
    }

    /** Give the limits of `p` the type's base type, reporting limits outside of it. */
    method UnifyCell(p: RangeCell) returns (out: seq<Report>)
      modifies p`minValue, p`maxValue
      ensures p.Get() == UnifyRange(basetype, old(p.Get()))
      ensures out == When(LimitReported(basetype, old(p.minValue)), OutOfBasetype)
        + When(LimitReported(basetype, old(p.maxValue)), OutOfBasetype)
    {
      var min, max := p.minValue, p.maxValue;
      match basetype
      case Integer32 =>
        out := When(min.base.Unsigned32? && min.bits > 2147483647, OutOfBasetype);
        out := out + When(max.base.Unsigned32? && max.bits > 2147483647, OutOfBasetype);
        SetBase(p, Integer32);
      case Unsigned32 =>
        out := When(min.base.Integer32? && Signed(min.bits) < 0, OutOfBasetype);
        out := out + When(max.base.Integer32? && Signed(max.bits) < 0, OutOfBasetype);
        SetBase(p, Unsigned32);
      case OctetString =>
        out := When(min.base.Integer32? && Signed(min.bits) < 0, OutOfBasetype);
        out := out + When(max.base.Integer32? && Signed(max.bits) < 0, OutOfBasetype);
        out := out + When(min.base.Unsigned32? && min.bits > 65535, OutOfBasetype);
        out := out + When(max.base.Unsigned32? && max.bits > 65535, OutOfBasetype);
        SetBase(p, Unsigned32);
      case Unknown =>
        out := [];
    }

    /** The first part of the loop body: base type and limit order of one range. */
    method PrepareCell(p: RangeCell) returns (out: seq<Report>)
      modifies p`minValue, p`maxValue
      ensures p.Get() == Prepare(basetype, old(p.Get()))
      ensures out == PrepareReports(basetype, old(p.Get()))
    {
      hide LimitReported;
      out := UnifyCell(p);
      if CompareValues(p.minValue, p.maxValue) > 0 {
        p.minValue, p.maxValue := p.maxValue, p.minValue;
        out := out + [ExchangedLimits];
      }
    }

    method PutFirst(p: RangeCell)
      requires Valid() && p !in cells
      modifies this, p`nextPtr
      ensures Valid() && cells == [p] + old(cells)
    {
      p.nextPtr := listPtr;
      listPtr := p;
      cells := [p] + cells;
    }

    /** Link `p` after the cell `pp`; when `pp` was not the last cell, clear the link again. */
    method PutAfter(pp: RangeCell, p: RangeCell, ghost k: nat) returns (cut: bool)
      requires Valid() && p !in cells && k < |cells| && pp == cells[k]
      modifies this`cells, p`nextPtr, pp`nextPtr
      ensures Valid() && cut == (k + 1 < |old(cells)|)
      ensures cells == if cut then old(cells)[..k + 1] else old(cells) + [p]
    {
      p.nextPtr := pp.nextPtr;
      pp.nextPtr := p;
      cut := p.nextPtr != null;
      if cut {
        pp.nextPtr := null;
        cells := cells[..k + 1];
      } else {
        cells := cells + [p];
      }
    }

    /** The search for the cell after which `p` goes. */
    method FindPlace(p: RangeCell) returns (pp: RangeCell, nextPP: RangeCell?, ghost k: nat)
      requires Valid() && cells != []
      ensures k < |cells| && pp == cells[k] && nextPP == At(cells, k + 1)
      ensures k == FindAfter(Contents(), p.Get(), 0)
      ensures pp == cells[FindAfter(Contents(), p.Get(), 0)]
    {
      pp, nextPP, k := listPtr, listPtr.nextPtr, 0;
      while nextPP != null && CompareValues(p.minValue, nextPP.minValue) > 0
        invariant k < |cells| && pp == cells[k] && nextPP == At(cells, k + 1)
        invariant FindAfter(Contents(), p.Get(), 0) == FindAfter(Contents(), p.Get(), k)
        decreases |cells| - k
      {
        pp := nextPP;
        nextPP := pp.nextPtr;
        k := k + 1;
      }
    }

    /** The same in terms of the ranges. */
    method PutRangeAfter(pp: RangeCell, p: RangeCell, ghost k: nat) returns (cut: bool)
      requires Valid() && p !in cells && k < |cells| && pp == cells[k]
      modifies this`cells, p`nextPtr, pp`nextPtr
      ensures Valid() && cut == (k + 1 < |old(cells)|)
      ensures cells == if cut then old(cells)[..k + 1] else old(cells) + [p]
      ensures Contents() == if cut then old(Contents())[..k + 1] else old(Contents()) + [p.Get()]
    {
      hide Gets, Linked;
      GetsPrefix(cells, k + 1);
      GetsAppend(cells, p);
      cut := PutAfter(pp, p, k);
    }

    /** The insertion behind the first cell. */
    method InsertLater(p: RangeCell) returns (out: seq<Report>)
      requires Valid() && cells != [] && p !in cells
      requires CompareValues(p.minValue, cells[0].minValue) > 0
      modifies this, p`nextPtr, cells`nextPtr
      ensures Valid() && cells != [] && forall i | 0 <= i < |cells| :: cells[i] == p || cells[i] in old(cells)
      ensures Contents() == Insert(old(Contents()), p.Get())
      ensures out == InsertReports(old(Contents()), p.Get())
    {
      hide CompareValues, FindAfter, Gets, Linked, Insert, InsertReports;
      InsertLaterIs(Contents(), p.Get());
      var pp, nextPP, k := FindPlace(p);
      out := When((nextPP != null && CompareValues(p.maxValue, nextPP.minValue) >= 0)
                  || CompareValues(p.minValue, pp.maxValue) <= 0, Overlap);
      var cut := PutRangeAfter(pp, p, k);
      out := out + When(cut, NotAscending);
    }

    /** The second part of the loop body: relink `p` into the list sorted so far, cutting the list
        before `p` when `p` goes between two cells. */
    method InsertCell(p: RangeCell) returns (out: seq<Report>)
      requires Valid() && cells != [] && p !in cells
      modifies this, p`nextPtr, cells`nextPtr
      ensures Valid() && cells != [] && forall i | 0 <= i < |cells| :: cells[i] == p || cells[i] in old(cells)
      ensures Contents() == Insert(old(Contents()), p.Get())
      ensures out == InsertReports(old(Contents()), p.Get())
    {
      hide CompareValues, ChainedFrom, Distinct, Gets, Insert, InsertReports;
      if CompareValues(p.minValue, listPtr.minValue) <= 0 {
        InsertFirstIs(Contents(), p.Get());
        GetsPrepend(cells, p);
        out := When(CompareValues(p.maxValue, listPtr.minValue) >= 0, Overlap) + [NotAscending];
        PutFirst(p);
      } else {
        out := InsertLater(p);
      }
    }

    /** Detach the next cell `p` and prepare its range. */
    method TakeCell(ghost rest: seq<RangeCell>, ghost input: seq<Range>, p: RangeCell)
      returns (nextPtr: RangeCell?, out: seq<Report>)
      requires rest != [] && Pending(rest, input, p)
      modifies p
      ensures Pending(rest[1..], input[1..], nextPtr)
      ensures p.nextPtr == null && p.Get() == Prepare(basetype, input[0])
      ensures out == PrepareReports(basetype, input[0])
    {
      hide Prepare, PrepareReports;
      nextPtr := p.nextPtr;
      assert Linked(rest[1..], nextPtr);
      assert Gets(rest[1..]) == input[1..];
      out := PrepareCell(p);
      p.nextPtr := null;
    }

    /** The state between two turns of the sorting loop, with the cells `rest` still to come. */
    ghost predicate Sorting(rest: seq<RangeCell>, p: RangeCell?)
      reads this, cells`nextPtr
    {
      && Disjoint(cells, rest)
      && if cells == [] then listPtr == p else Linked(cells, listPtr)
    }

    /** One turn of the sorting loop. */
    method SortStep(ghost rest: seq<RangeCell>, ghost input: seq<Range>, p: RangeCell)
      returns (nextPtr: RangeCell?, out: seq<Report>)
      requires rest != [] && Pending(rest, input, p) && Sorting(rest, p)
      modifies this, p, cells`nextPtr
      ensures Pending(rest[1..], input[1..], nextPtr) && Sorting(rest[1..], nextPtr) && cells != []
      ensures var r := Prepare(basetype, input[0]); var list := old(Contents());
        && Contents() == Insert(list, r)
        && out == PrepareReports(basetype, input[0]) + InsertReports(list, r)
      ensures forall i | 0 <= i < |cells| :: cells[i] == p || cells[i] in old(cells)
    {
      hide Insert, InsertReports, Prepare, PrepareReports, CompareValues, Gets, RangeCell.Get, Pending, ChainedFrom;
      PendingHead(rest, input, p);
      nextPtr, out := TakeCell(rest, input, p);
      if p != listPtr {
        var more := InsertCell(p);
        out := out + more;
      } else {
        InsertIntoNothing(p.Get());
        JustOne(p);
        cells := [p];
      }
    }

    method SortRanges() returns (out: seq<Report>)
      requires Valid()
      modifies this, cells
      ensures Valid() && forall i | 0 <= i < |cells| :: cells[i] in old(cells)
      ensures Contents() == SortAll(PrepareAll(basetype, old(Contents())))
      ensures out == RunReports(basetype, old(Contents()))
    {
      hide SortAll, RunReports, PrepareAll, Insert, InsertReports, Gets, ChainedFrom, Distinct;
      ghost var all, input, n: nat := cells, Contents(), 0;
      NothingTaken(basetype, input);
      var p := listPtr;
      cells, out := [], [];
      assert all[0..] == all && input[0..] == input;
      while p != null
        invariant n <= |all| && |input| == |all| && p == At(all, n)
        invariant Pending(all[n..], input[n..], p) && Sorting(all[n..], p) && (n > 0 ==> cells != [])
        invariant Contents() == SortAll(PrepareAll(basetype, input[..n]))
        invariant out == RunReports(basetype, input[..n])
        invariant forall i | 0 <= i < |cells| :: cells[i] in all
        decreases |all| - n
      {
        TakeOne(basetype, input, n);
        assert all[n..][1..] == all[n + 1..] && input[n..][1..] == input[n + 1..];
        var more;
        p, more := SortStep(all[n..], input[n..], p);
        out, n := out + more, n + 1;
      }
      assert input[..n] == input;
    }

    /** Take the cell `p` off the list after handing its lower limit to the next one. */
    method Unlink(p: RangeCell, pp: RangeCell?, next: RangeCell, ghost d: nat) returns (pp': RangeCell?)
      requires Valid() && d + 1 < |cells| && p == cells[d] && next == cells[d + 1]
      requires d > 0 ==> pp == cells[d - 1]
      modifies this, next`minValue, cells`nextPtr
      ensures Valid() && cells == Without(old(cells), d)
      ensures next.minValue == old(p.minValue)
      ensures d > 0 ==> pp' == cells[d - 1]
    {
      WithoutDistinct(cells, d);
      next.minValue := p.minValue;
      if p == listPtr {
        listPtr := next;
        pp' := next;
      } else {
        pp.nextPtr := next;
        pp' := pp;
      }
      hide Distinct;
      assert forall i {:trigger cells[i].nextPtr} | 0 <= i < |cells| && i != d - 1 ::
          cells[i].nextPtr == At(cells, i + 1);
      ghost var s := cells;
      cells := Without(s, d);
      forall i | 0 <= i < |cells|
        ensures cells[i].nextPtr == At(cells, i + 1)
      {
        assert i < d - 1 ==> s[i].nextPtr == s[i + 1];
        assert i >= d ==> s[i + 1].nextPtr == At(s, i + 2);
      }
    }

    lemma NextCell(d: nat)
      requires Valid() && d < |cells|
      ensures cells[d].nextPtr == At(cells, d + 1)
    {
    }

    /** Join the cell `p` into the touching next one. */
    method JoinNext(p: RangeCell, pp: RangeCell?, next: RangeCell, ghost d: nat) returns (pp': RangeCell?)
      requires Valid() && d + 1 < |cells| && p == cells[d] && next == cells[d + 1]
      requires d > 0 ==> pp == cells[d - 1]
      modifies this, next`minValue, cells`nextPtr
      ensures Valid() && cells == Without(old(cells), d)
      ensures var list := old(Contents());
        Contents() == list[..d] + [Range(list[d].min, list[d + 1].max)] + list[d + 2..]
      ensures d > 0 ==> pp' == cells[d - 1]
    {
      hide Gets, ChainedFrom;
      pp' := Unlink(p, pp, next, d);
    }

    /** One turn of the normalization loop. */
    method MergeStep(p: RangeCell, pp: RangeCell?, ghost d: nat)
      returns (nextPtr: RangeCell?, pp': RangeCell?, ghost d': nat)
      requires Valid() && d < |cells| && p == cells[d] && (d > 0 ==> pp == cells[d - 1])
      modifies this, cells
      ensures Valid() && d' <= |cells| && nextPtr == At(cells, d') && (d' > 0 ==> pp' == cells[d' - 1])
      ensures forall i | 0 <= i < |cells| :: cells[i] in old(cells)
      ensures var list := old(Contents());
        Contents()[..d'] + Merge(Contents()[d'..]) == list[..d] + Merge(list[d..])
      ensures |cells| - d' < old(|cells|) - d
    {
      hide CompareValues, Merge, Gets, ChainedFrom, Distinct;
      NextCell(d);
      MergeOnce(Contents(), d);
      nextPtr := p.nextPtr;
      if nextPtr != null && CompareValues(p.maxValue, nextPtr.minValue) == -1 {
        pp' := JoinNext(p, pp, nextPtr, d);
        d' := d;
      } else {
        pp', d' := p, d + 1;
      }
    }

    /** The normalization loop: touching ranges are merged into the later cell. */
    method MergeRanges()
      requires Valid()
      modifies this, cells
      ensures Valid() && forall i | 0 <= i < |cells| :: cells[i] in old(cells)
      ensures Contents() == Merge(old(Contents()))
    {
      hide Merge, Gets, Distinct, ChainedFrom;
      ghost var d: nat := 0;
      var p, pp := listPtr, listPtr;
      assert Contents()[..0] + Merge(Contents()[0..]) == Merge(Contents()) by {
        assert Contents()[0..] == Contents();
      }
      while p != null
        invariant Valid() && d <= |cells| && p == At(cells, d) && (d > 0 ==> pp == cells[d - 1])
        invariant forall i | 0 <= i < |cells| :: cells[i] in old(cells)
        invariant Contents()[..d] + Merge(Contents()[d..]) == Merge(old(Contents()))
        decreases |cells| - d
      {
        p, pp, d := MergeStep(p, pp, d);
      }
      MergeOfNothing();
      assert Contents()[d..] == [] && Contents()[..d] == Contents();
    }

    /** `smiCheckTypeRanges`: the list becomes the checked form of the declared ranges, made of
        some of their cells, and the messages are those of the run, in order. */
    method CheckTypeRanges() returns (out: seq<Report>)
      requires Valid()
      modifies this, cells
      ensures Valid() && forall i | 0 <= i < |cells| :: cells[i] in old(cells)
      ensures Contents() == Checked(basetype, old(Contents()))
      ensures out == RunReports(basetype, old(Contents()))
    {
      out := SortRanges();
      MergeRanges();
    }

    /** `smiCheckValueType` for a 32-bit value: the value takes the type's base type, and the
        messages depend on the list as it stands. */
    method CheckValueType(value: Value) returns (cast: Value, out: seq<Report>)
      requires Valid()
      ensures out == DefvalReports(basetype, Contents(), value)
      ensures !(basetype.Integer32? || basetype.Unsigned32?) || value.base.Unknown? ==> out == []
      ensures cast == if value.base.Unknown? then value else value.(base := basetype)
    {
      hide CompareValues;
      cast, out := value, [];
      if value.base.Unknown? {
        return;
      }
      out := When(DefvalOutOfBase(basetype, value), DefvalOutOfBasetype);
      cast := value.(base := basetype);
      if Is32(cast) {
        var p := listPtr;
        ghost var k := 0;
        while p != null && !Accepts(p.Get(), cast)
          invariant k <= |cells| && p == At(cells, k)
          invariant forall i | 0 <= i < k :: !Accepts(Contents()[i], cast)
          decreases |cells| - k
        {
          p := p.nextPtr;
          k := k + 1;
        }
        assert p != null ==> Accepts(Contents()[k], cast);
        out := out + When(p == null && listPtr != null, DefvalOutOfRange);
      }
    }
  }
}
