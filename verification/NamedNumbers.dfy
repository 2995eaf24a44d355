/** The named numbers of an enumeration or of BITS: the scan for repetitions and the in-place
    sort of the list, `smiCheckNamedNumberRedefinition` and `smiCheckNamedNumbersOrder`. */
module NamedNumbers {
  import opened Seqs

  datatype Kind = Enum | Bits

  datatype Report =
    | NameRedefinition(name: string)
    | NumberRedefinition(number: int)
    | BitsZeroNotNamed
    | NumbersNotAscending

  class NumberCell {
    const name: string

    /** Read as a signed word for an enumeration, as an unsigned word for BITS. */
    const number: int

    var nextPtr: NumberCell?

    constructor (name: string, number: int)
      ensures this.name == name && this.number == number && nextPtr == null
    {
      this.name, this.number, nextPtr := name, number, null;
    }
  }

  ghost function At(cells: seq<NumberCell>, i: nat): NumberCell? {
    if i < |cells| then cells[i] else null
  }

  ghost predicate Chained(cells: seq<NumberCell>)
    reads cells`nextPtr
  {
    forall i {:trigger cells[i].nextPtr} | 0 <= i < |cells| :: cells[i].nextPtr == At(cells, i + 1)
  }

  // ---------- where a cell goes ----------

  predicate Stops(kind: Kind, y: int, x: int) {
    if kind.Enum? then y >= x else y > x
  }

  /** The index after which the insertion loop puts the number `x`. */
  function PlaceAfter(kind: Kind, w: seq<NumberCell>, x: int, j: nat): (k: nat)
    requires j < |w|
    ensures j <= k < |w|
    ensures k + 1 == |w| || Stops(kind, w[k + 1].number, x)
    ensures forall i | j < i <= k :: !Stops(kind, w[i].number, x)
    decreases |w| - j
  {
    if j + 1 == |w| || Stops(kind, w[j + 1].number, x) then j else PlaceAfter(kind, w, x, j + 1)
  }

  function PlaceOf(kind: Kind, w: seq<NumberCell>, x: int): (pos: nat)
    requires w != []
    ensures pos <= |w|
  {
    if w[0].number > x then 0 else PlaceAfter(kind, w, x, 0) + 1
  }

  /** Element `d` taken out and put back at position `pos`. */
  function Moved<T>(s: seq<T>, d: nat, pos: nat): seq<T>
    requires d < |s| && pos < |s|
  {
    Inserted(Without(s, d), pos, s[d])
  }

  // ---------- what the sort needs and gives ----------

  ghost predicate Ascending(cells: seq<NumberCell>) {
    forall i, j | 0 <= i < j < |cells| :: cells[i].number <= cells[j].number
  }

  ghost predicate StrictlyAscending(cells: seq<NumberCell>) {
    forall i, j | 0 <= i < j < |cells| :: cells[i].number < cells[j].number
  }

  ghost predicate DistinctNumbers(cells: seq<NumberCell>) {
    forall i, j | 0 <= i < j < |cells| :: cells[i].number != cells[j].number
  }

  /** The number of cell `d` repeats the largest number before it, and the one after it is smaller
      (for BITS: not larger; for an enumeration only the second cell matters). */
  ghost predicate StuckAt(kind: Kind, cells: seq<NumberCell>, d: nat)
    requires 0 < d && d + 1 < |cells|
  {
    && (forall i | 0 <= i < d :: cells[i].number <= cells[d].number)
    && (exists i :: 0 <= i < d && cells[i].number == cells[d].number)
    && (if kind.Enum? then d == 1 && cells[d + 1].number < cells[d].number
        else cells[d + 1].number <= cells[d].number)
  }

  /** The declared order in which the re-insertion runs past the processed cells: the walk that
      then looks for the last processed cell runs off the end of the list. */
  ghost predicate Stuck(kind: Kind, cells: seq<NumberCell>) {
    exists d :: 0 < d && d + 1 < |cells| && StuckAt(kind, cells, d)
  }

  // ---------- one turn of the sort, on sequences ----------

  /** After `d` turns over the declared cells `all`: the first `d` cells are the declared ones in
      ascending order, the rest is untouched. */
  ghost predicate Progress(all: seq<NumberCell>, s: seq<NumberCell>, d: nat) {
    && |s| == |all| && d <= |all| && s[d..] == all[d..]
    && multiset(s[..d]) == multiset(all[..d]) && Ascending(s[..d])
  }

  /** The last processed cell carries the largest of the first `d` declared numbers. */
  lemma LastIsLargest(all: seq<NumberCell>, s: seq<NumberCell>, d: nat)
    requires Progress(all, s, d) && 0 < d
    ensures forall i | 0 <= i < d :: all[i].number <= s[d - 1].number
    ensures exists i :: 0 <= i < d && all[i].number == s[d - 1].number
  {
    SameElements(s[..d], all[..d]);
    forall i | 0 <= i < d
      ensures all[i].number <= s[d - 1].number
    {
      assert all[..d][i] == all[i];
      var k :| 0 <= k < d && s[..d][k] == all[i];
      assert s[..d][d - 1] == s[d - 1];
    }
    assert s[..d][d - 1] == s[d - 1];
    var k :| 0 <= k < d && all[..d][k] == s[d - 1];
  }

  lemma NextUntouched(all: seq<NumberCell>, s: seq<NumberCell>, d: nat)
    requires Progress(all, s, d)
    ensures forall i | d <= i < |s| :: s[i] == all[i]
  {
  }

  /** Where the re-insertion puts a cell whose number is not above the last processed one: behind
      the next unprocessed cell exactly when the declared order is stuck here. */
  lemma PlaceIsEarly(kind: Kind, all: seq<NumberCell>, s: seq<NumberCell>, d: nat)
    requires Progress(all, s, d) && 0 < d < |s| && s[d].number <= s[d - 1].number
    ensures var pos := PlaceOf(kind, Without(s, d), s[d].number);
      && pos < |s|
      && (pos > d <==> d + 1 < |all| && StuckAt(kind, all, d))
  {
    var w, x := Without(s, d), s[d].number;
    LastIsLargest(all, s, d);
    NextUntouched(all, s, d);
    assert forall i | 0 <= i < d :: w[i] == s[i] == s[..d][i];
    assert d < |w| ==> w[d] == s[d + 1] == all[d + 1];
    var pos := PlaceOf(kind, w, x);
    if w[0].number <= x {
      assert pos > d ==> !Stops(kind, w[d].number, x) && (d > 1 ==> !Stops(kind, w[d - 1].number, x));
    }
  }

  lemma PrefixMoved<T>(s: seq<T>, d: nat, pos: nat)
    requires pos <= d < |s|
    ensures Moved(s, d, pos)[..d + 1] == s[..pos] + [s[d]] + s[pos..d]
    ensures Moved(s, d, pos)[d + 1..] == s[d + 1..]
    ensures multiset(Moved(s, d, pos)[..d + 1]) == multiset(s[..d]) + multiset{s[d]}
  {
    assert s[..d] == s[..pos] + s[pos..d];
  }

  lemma MovedPlaces<T>(s: seq<T>, d: nat, pos: nat)
    requires d < |s| && pos < |s|
    ensures |Moved(s, d, pos)| == |s| && Moved(s, d, pos)[pos] == s[d]
    ensures d + 1 < |s| ==> Moved(s, d, pos)[if pos <= d then d + 1 else d] == s[d + 1]
    ensures forall i | 0 <= i < |s| :: Moved(s, d, pos)[i] in s
  {
  }

  lemma PlaceSplits(kind: Kind, s: seq<NumberCell>, d: nat)
    requires 0 < d < |s| && Ascending(s[..d])
    requires PlaceOf(kind, Without(s, d), s[d].number) <= d
    ensures var pos := PlaceOf(kind, Without(s, d), s[d].number);
      && (forall i | 0 <= i < pos :: s[i].number <= s[d].number)
      && (forall i | pos <= i < d :: s[d].number <= s[i].number)
  {
    var w, x := Without(s, d), s[d].number;
    assert forall i | 0 <= i < d :: w[i] == s[i] == s[..d][i];
    var pos := PlaceOf(kind, w, x);
    assert 0 < pos < d ==> Stops(kind, w[pos].number, x);
  }

  lemma AscendingInsert(s: seq<NumberCell>, d: nat, pos: nat)
    requires pos <= d < |s| && Ascending(s[..d])
    requires forall i | 0 <= i < pos :: s[i].number <= s[d].number
    requires forall i | pos <= i < d :: s[d].number <= s[i].number
    ensures Ascending(s[..pos] + [s[d]] + s[pos..d])
  {
  }

  lemma MovedProgress(all: seq<NumberCell>, s: seq<NumberCell>, d: nat, pos: nat)
    requires Progress(all, s, d) && pos <= d < |s| && Ascending(s[..pos] + [s[d]] + s[pos..d])
    ensures Progress(all, Moved(s, d, pos), d + 1)
  {
    hide Ascending, Moved;
    MovedPlaces(s, d, pos);
    PrefixMoved(s, d, pos);
    NextUntouched(all, s, d);
    assert all[..d + 1] == all[..d] + [all[d]];
    assert s[d + 1..] == all[d + 1..];
  }

  lemma MoveProgress(kind: Kind, all: seq<NumberCell>, s: seq<NumberCell>, d: nat)
    requires Progress(all, s, d) && 0 < d < |s|
    requires PlaceOf(kind, Without(s, d), s[d].number) <= d
    ensures Progress(all, Moved(s, d, PlaceOf(kind, Without(s, d), s[d].number)), d + 1)
  {
    hide PlaceOf, Without, Moved;
    var pos := PlaceOf(kind, Without(s, d), s[d].number);
    PlaceSplits(kind, s, d);
    AscendingInsert(s, d, pos);
    MovedProgress(all, s, d, pos);
  }

  lemma KeepProgress(all: seq<NumberCell>, s: seq<NumberCell>, d: nat)
    requires Progress(all, s, d) && d < |s| && (d > 0 ==> s[d - 1].number < s[d].number)
    ensures Progress(all, s, d + 1)
  {
    NextUntouched(all, s, d);
    assert all[..d + 1] == all[..d] + [all[d]] && s[..d + 1] == s[..d] + [s[d]];
    assert d > 0 ==> s[..d][d - 1] == s[d - 1];
    assert all[d + 1..] == s[d + 1..];
  }

  /** The processed part stays strictly ascending as declared exactly when the next number is above
      the last processed one. */
  lemma StrictStep(all: seq<NumberCell>, s: seq<NumberCell>, d: nat)
    requires Progress(all, s, d) && d < |s|
    ensures StrictlyAscending(all[..d + 1]) <==>
      StrictlyAscending(all[..d]) && (d == 0 || s[d - 1].number < s[d].number)
    ensures |s| == |all|
  {
    NextUntouched(all, s, d);
    assert all[..d + 1] == all[..d] + [all[d]];
    if d > 0 {
      LastIsLargest(all, s, d);
      if s[d - 1].number >= s[d].number {
        var i :| 0 <= i < d && all[i].number == s[d - 1].number;
        assert all[..d + 1][i].number >= all[..d + 1][d].number;
      }
    }
  }

  ghost predicate NotStuckBefore(kind: Kind, all: seq<NumberCell>, d: nat) {
    forall i | 0 < i < d && i + 1 < |all| :: !StuckAt(kind, all, i)
  }

  ghost function ZeroReports(kind: Kind, cells: seq<NumberCell>): seq<Report> {
    if kind.Bits? && !(exists i :: 0 <= i < |cells| && cells[i].number == 0) then [BitsZeroNotNamed] else []
  }

  ghost function OrderReports(cells: seq<NumberCell>): seq<Report> {
    if StrictlyAscending(cells) then [] else [NumbersNotAscending]
  }

  /** With distinct numbers no declared order is stuck. */
  lemma DistinctNotStuck(kind: Kind, cells: seq<NumberCell>)
    requires DistinctNumbers(cells)
    ensures !Stuck(kind, cells)
  {
  }

  /** Sorting distinct numbers leaves them strictly ascending. */
  lemma SortedDistinct(was: seq<NumberCell>, cells: seq<NumberCell>)
    requires DistinctNumbers(was) && Distinct(cells) && multiset(cells) == multiset(was) && Ascending(cells)
    ensures StrictlyAscending(cells)
  {
    SameElements(cells, was);
    forall i, j | 0 <= i < j < |cells|
      ensures cells[i].number < cells[j].number
    {
      var a :| 0 <= a < |was| && was[a] == cells[i];
      var b :| 0 <= b < |was| && was[b] == cells[j];
    }
  }

  lemma NothingYet(kind: Kind, all: seq<NumberCell>)
    ensures Progress(all, all, 0) && StrictlyAscending(all[..0]) && NotStuckBefore(kind, all, 0)
    ensures forall i | 0 <= i < |all| :: all[i] in all
  {
  }

  lemma StuckStep(kind: Kind, all: seq<NumberCell>, d: nat)
    requires d < |all|
    ensures 0 < d && d + 1 < |all| && StuckAt(kind, all, d) ==> Stuck(kind, all)
    ensures NotStuckBefore(kind, all, d) && !(0 < d && d + 1 < |all| && StuckAt(kind, all, d))
      ==> NotStuckBefore(kind, all, d + 1)
  {
  }

  lemma AllDone(kind: Kind, all: seq<NumberCell>, s: seq<NumberCell>, d: nat)
    requires Progress(all, s, d) && At(s, d) == null && NotStuckBefore(kind, all, d)
    ensures multiset(s) == multiset(all) && Ascending(s) && !Stuck(kind, all)
    ensures all[..d] == all
  {
    hide StuckAt;
    assert all[..d] == all && s[..d] == s;
  }

  lemma NotStrictAll(all: seq<NumberCell>, d: nat)
    requires d <= |all| && !StrictlyAscending(all[..d])
    ensures !StrictlyAscending(all)
  {
  }

  lemma NotLargestNotStuck(kind: Kind, all: seq<NumberCell>, s: seq<NumberCell>, d: nat)
    requires Progress(all, s, d) && d < |s| && (d > 0 ==> s[d - 1].number < s[d].number)
    ensures 0 < d && d + 1 < |all| ==> !StuckAt(kind, all, d)
  {
    NextUntouched(all, s, d);
    if d > 0 {
      LastIsLargest(all, s, d);
    }
  }

  lemma ChainedInserted(s: seq<NumberCell>, j: nat, cur: NumberCell)
    requires j < |s| && s[j].nextPtr == cur && cur.nextPtr == At(s, j + 1)
    requires forall i {:trigger s[i].nextPtr} | 0 <= i < |s| && i != j :: s[i].nextPtr == At(s, i + 1)
    ensures Chained(Inserted(s, j + 1, cur))
  {
  }

  class EnumType {
    const kind: Kind
    const hasParent: bool
    var listPtr: NumberCell?
    ghost var cells: seq<NumberCell>

    constructor (kind: Kind, hasParent: bool)
      ensures Valid() && cells == [] && this.kind == kind && this.hasParent == hasParent
    {
      this.kind, this.hasParent, listPtr, cells := kind, hasParent, null, [];
    }

    ghost predicate Valid()
      reads this, cells`nextPtr
    {
      listPtr == At(cells, 0) && Distinct(cells) && Chained(cells)
    }

    method Unlink(last: NumberCell, cur: NumberCell, ghost d: nat)
      requires Valid() && 0 < d < |cells| && last == cells[d - 1] && cur == cells[d]
      modifies this`cells, last`nextPtr
      ensures Valid() && cells == Without(old(cells), d) && cur !in cells
    {
      WithoutDistinct(cells, d);
      hide Distinct;
      last.nextPtr := cur.nextPtr;
      cells := Without(cells, d);
    }

    method PutFirst(cur: NumberCell)
      requires Valid() && cur !in cells
      modifies this, cur`nextPtr
      ensures Valid() && cells == Inserted(old(cells), 0, cur)
    {
      cur.nextPtr := listPtr;
      listPtr := cur;
      cells := Inserted(cells, 0, cur);
    }

    method PutAfter(ptr: NumberCell, cur: NumberCell, ghost j: nat)
      requires Valid() && cur !in cells && j < |cells| && ptr == cells[j]
      modifies this`cells, cur`nextPtr, ptr`nextPtr
      ensures Valid() && cells == Inserted(old(cells), j + 1, cur)
    {
      hide Distinct;
      assert Distinct(Inserted(cells, j + 1, cur)) by { InsertedDistinct(cells, j + 1, cur); }
      ghost var s := cells;
      cur.nextPtr := ptr.nextPtr;
      ptr.nextPtr := cur;
      assert forall i {:trigger s[i].nextPtr} | 0 <= i < |s| && i != j :: s[i].nextPtr == At(s, i + 1) by {
        InsertedDistinct(s, j + 1, cur);
      }
      ChainedInserted(s, j, cur);
      cells := Inserted(s, j + 1, cur);
    }

    method FindPlace(x: int) returns (ptr: NumberCell, ghost j: nat)
      requires Valid() && cells != []
      ensures j == PlaceAfter(kind, cells, x, 0)
      ensures ptr == cells[PlaceAfter(kind, cells, x, 0)]
    {
      ptr, j := listPtr, 0;
      while ptr.nextPtr != null && !Stops(kind, ptr.nextPtr.number, x)
        invariant j < |cells| && ptr == cells[j]
        invariant PlaceAfter(kind, cells, x, 0) == PlaceAfter(kind, cells, x, j)
        decreases |cells| - j
      {
        ptr, j := ptr.nextPtr, j + 1;
      }
    }

    /** Remove `cur` from behind `last` and re-insert it. */
    method Reinsert(last: NumberCell, cur: NumberCell, ghost d: nat) returns (ghost pos: nat)
      requires Valid() && 0 < d < |cells| && last == cells[d - 1] && cur == cells[d]
      modifies this, cells`nextPtr
      ensures Valid() && pos == PlaceOf(kind, Without(old(cells), d), cur.number)
      ensures pos < |old(cells)| && cells == Moved(old(cells), d, pos)
    {
      hide Chained, Distinct, PlaceAfter;
      Unlink(last, cur, d);
      if listPtr.number > cur.number {
        pos := 0;
        PutFirst(cur);
      } else {
        var ptr, j := FindPlace(cur.number);
        pos := j + 1;
        PutAfter(ptr, cur, j);
      }
    }

    /** The walk from the re-inserted cell to the last processed one, the cell in front of `next`.
        It fails when `next` comes before the start. */
    method WalkTo(start: NumberCell, next: NumberCell?, ghost pos: nat, ghost m: nat)
      returns (last: NumberCell?)
      requires Valid() && pos < |cells| && start == cells[pos] && m <= |cells| && next == At(cells, m)
      ensures last == if 0 < m && pos < m then cells[m - 1] else null
    {
      last := start;
      ghost var k := pos;
      while last != null && last.nextPtr != next
        invariant k <= |cells| && last == At(cells, k) && pos <= k && (pos < m ==> k < m)
        decreases |cells| - k
      {
        last, k := last.nextPtr, k + 1;
      }
    }

    /** One turn for a cell whose number is not above the last processed one. */
    method Resort(ghost all: seq<NumberCell>, ghost d: nat, lastPtr: NumberCell, cur: NumberCell,
                  next: NumberCell?)
      returns (last: NumberCell?)
      requires Valid() && Progress(all, cells, d) && 0 < d < |cells|
      requires lastPtr == cells[d - 1] && cur == cells[d] && next == At(cells, d + 1)
      requires cur.number <= lastPtr.number
      modifies this, cells`nextPtr
      ensures last == null <==> d + 1 < |all| && StuckAt(kind, all, d)
      ensures last != null ==> Valid() && Progress(all, cells, d + 1) && last == cells[d] && next == At(cells, d + 1)
      ensures forall i | 0 <= i < |cells| :: cells[i] in old(cells)
    {
      hide Progress, StuckAt, PlaceOf;
      ghost var s := cells;
      PlaceIsEarly(kind, all, s, d);
      var pos := Reinsert(lastPtr, cur, d);
      MovedPlaces(s, d, pos);
      if pos <= d {
        MoveProgress(kind, all, s, d);
      }
      last := WalkTo(cur, next, pos, if pos <= d then d + 1 else d);
    }

    /** Whether the first bit has a name. */
    method CheckBitZero() returns (out: seq<Report>)
      requires Valid()
      ensures out == ZeroReports(kind, cells)
    {
      out := [];
      if kind.Bits? {
        var p := listPtr;
        ghost var k := 0;
        while p != null && p.number != 0
          invariant k <= |cells| && p == At(cells, k)
          invariant forall i | 0 <= i < k :: cells[i].number != 0
          decreases |cells| - k
        {
          p, k := p.nextPtr, k + 1;
        }
        if p == null {
          out := [BitsZeroNotNamed];
        }
      }
    }

    /** The state of the loop before turn `d`. */
    ghost predicate Turning(all: seq<NumberCell>, d: nat, lastPtr: NumberCell?, cur: NumberCell?)
      reads this, cells`nextPtr
    {
      && Valid() && Progress(all, cells, d) && cur == At(cells, d)
      && lastPtr == if d == 0 then null else cells[d - 1]
    }

    /** One turn of the loop.  No last cell comes back from a crash. */
    method Turn(ghost all: seq<NumberCell>, ghost d: nat, lastPtr: NumberCell?, cur: NumberCell)
      returns (last: NumberCell?, next: NumberCell?, disorder: bool)
      requires Turning(all, d, lastPtr, cur)
      modifies this, cells`nextPtr
      ensures last == null <==> 0 < d && d + 1 < |all| && StuckAt(kind, all, d)
      ensures last != null ==> Turning(all, d + 1, last, next)
      ensures disorder == (0 < d && old(cells[d - 1].number) >= cur.number)
      ensures last == null ==> disorder
      ensures forall i | 0 <= i < |cells| :: cells[i] in old(cells)
    {
      hide Progress, StuckAt;
      next := cur.nextPtr;
      disorder := lastPtr != null && cur.number <= lastPtr.number;
      if disorder {
        last := Resort(all, d, lastPtr, cur, next);
      } else {
        KeepProgress(all, cells, d);
        NotLargestNotStuck(kind, all, cells, d);
        last := cur;
      }
    }

    method SortNumbers() returns (crashed: bool, out: seq<Report>)
      requires Valid()
      modifies this, cells`nextPtr
      ensures crashed == Stuck(kind, old(cells))
      ensures out == OrderReports(old(cells))
      ensures !crashed ==> Valid() && multiset(cells) == multiset(old(cells)) && Ascending(cells)
    {
      hide Progress, Ascending, StrictlyAscending, Stuck, StuckAt, NotStuckBefore, Chained, Distinct;
      ghost var all, d := cells, 0;
      var shutup := false;
      var lastPtr, cur := null, listPtr;
      crashed, out := false, [];
      NothingYet(kind, all);
      while cur != null && !crashed
        invariant d <= |all| && (!crashed ==> Turning(all, d, lastPtr, cur))
        invariant shutup == !StrictlyAscending(all[..d])
        invariant out == if shutup then [NumbersNotAscending] else []
        invariant if crashed then shutup && Stuck(kind, all) else NotStuckBefore(kind, all, d)
        invariant forall i | 0 <= i < |cells| :: cells[i] in all
        decreases |all| - d
      {
        StrictStep(all, cells, d);
        var disorder;
        lastPtr, cur, disorder := Turn(all, d, lastPtr, cur);
        if disorder && !shutup {
          out, shutup := out + [NumbersNotAscending], true;
        }
        crashed := lastPtr == null;
        StuckStep(kind, all, d);
        d := d + 1;
      }
      if crashed {
        NotStrictAll(all, d);
      } else {
        AllDone(kind, all, cells, d);
      }
    }

    /** `smiCheckNamedNumbersOrder`.  It crashes exactly on the stuck declared orders; otherwise the
        list keeps all its cells and ends ascending.  The order message is printed once, exactly when
        the declared numbers do not strictly ascend. */
    method CheckOrder() returns (crashed: bool, out: seq<Report>)
      requires Valid()
      modifies this, cells`nextPtr
      ensures !hasParent ==> !crashed && out == [] && cells == old(cells)
      ensures hasParent ==> crashed == Stuck(kind, old(cells))
      ensures hasParent ==> out == ZeroReports(kind, old(cells)) + OrderReports(old(cells))
      ensures !crashed ==> Valid() && multiset(cells) == multiset(old(cells))
      ensures !crashed && hasParent ==> Ascending(cells)
    {
      crashed, out := false, [];
      if !hasParent {
        return;
      }
      var zero := CheckBitZero();
      crashed, out := SortNumbers();
      out := zero + out;
    }
  }

  /** Two cells at different positions repeat a number. */
  ghost predicate RepeatsNumber(cells: seq<NumberCell>, i: nat, j: nat, n: int)
    requires i < j < |cells|
  {
    cells[i].number == n == cells[j].number
  }

  ghost predicate RepeatsName(cells: seq<NumberCell>, i: nat, j: nat, n: string)
    requires i < j < |cells|
  {
    cells[i].name == n == cells[j].name
  }

  /** The messages found for pairs before `(i, j)` in the order of the scan. */
  ghost predicate ScannedTo(cells: seq<NumberCell>, i: nat, j: nat, out: seq<Report>)
    requires i <= |cells| && j <= |cells|
  {
    && (forall n :: NumberRedefinition(n) in out <==>
      exists a, b :: 0 <= a < b < |cells| && (a < i || (a == i && b < j)) && RepeatsNumber(cells, a, b, n))
    && (forall n :: NameRedefinition(n) in out <==>
      exists a, b :: 0 <= a < b < |cells| && (a < i || (a == i && b < j)) && RepeatsName(cells, a, b, n))
  }

  /** The messages for one pair of cells: the name first, then the number. */
  function PairReports(a: NumberCell, b: NumberCell): seq<Report> {
    (if a.name == b.name then [NameRedefinition(a.name)] else [])
    + (if a.number == b.number then [NumberRedefinition(a.number)] else [])
  }

  /** The messages for the pairs of cell `i` with the cells from `i + 1` to before `j`. */
  ghost function RowReports(cells: seq<NumberCell>, i: nat, j: nat): seq<Report>
    requires i < j <= |cells|
  {
    if j == i + 1 then [] else RowReports(cells, i, j - 1) + PairReports(cells[i], cells[j - 1])
  }

  /** The messages for the first `i` rows, pair by pair. */
  ghost function ScanReports(cells: seq<NumberCell>, i: nat): seq<Report>
    requires i <= |cells|
  {
    if i == 0 then [] else ScanReports(cells, i - 1) + RowReports(cells, i - 1, |cells|)
  }

  lemma ReportsStep(cells: seq<NumberCell>, i: nat, j: nat)
    requires i < j < |cells|
    ensures ScanReports(cells, i) + RowReports(cells, i, j) + PairReports(cells[i], cells[j])
      == ScanReports(cells, i) + RowReports(cells, i, j + 1)
  {
  }

  lemma {:induction false} NoReports(cells: seq<NumberCell>)
    ensures ScanReports(cells, 0) == []
  {
  }

  lemma ReportsRow(cells: seq<NumberCell>, i: nat)
    requires i < |cells|
    ensures ScanReports(cells, i) + RowReports(cells, i, i + 1) == ScanReports(cells, i)
    ensures ScanReports(cells, i) + RowReports(cells, i, |cells|) == ScanReports(cells, i + 1)
  {
  }

  /** Where a row of the scan ends the next one starts. */
  lemma ScanRows(cells: seq<NumberCell>, i: nat, out: seq<Report>)
    requires i <= |cells|
    ensures out == [] ==> ScannedTo(cells, 0, 0, out)
    ensures i < |cells| ==> (ScannedTo(cells, i, 0, out) <==> ScannedTo(cells, i, i + 1, out))
    ensures i < |cells| ==> (ScannedTo(cells, i, |cells|, out) <==> ScannedTo(cells, i + 1, 0, out))
    ensures ScannedTo(cells, |cells|, 0, out) <==> ScannedTo(cells, |cells|, |cells|, out)
  {
  }

  lemma ScanStep(cells: seq<NumberCell>, i: nat, j: nat, out: seq<Report>)
    requires i < j < |cells| && ScannedTo(cells, i, j, out)
    ensures ScannedTo(cells, i, j + 1, out + PairReports(cells[i], cells[j]))
  {
    var found := PairReports(cells[i], cells[j]);
    forall n
      ensures NumberRedefinition(n) in found <==> RepeatsNumber(cells, i, j, n)
    {
    }
    forall n
      ensures NameRedefinition(n) in found <==> RepeatsName(cells, i, j, n)
    {
    }
  }

  /** Two cells, and whether they are compared by number or by name. */
  datatype Place = Place(a: nat, b: nat, byNumber: bool)

  /** The order of the scan: by the first cell, then by the second, the name before the number. */
  ghost predicate Before(p: Place, q: Place) {
    p.a < q.a || (p.a == q.a && (p.b < q.b || (p.b == q.b && !p.byNumber && q.byNumber)))
  }

  /** The two cells repeat a number, or a name. */
  ghost predicate Repeats(cells: seq<NumberCell>, p: Place) {
    && p.a < p.b < |cells|
    && if p.byNumber then cells[p.a].number == cells[p.b].number else cells[p.a].name == cells[p.b].name
  }

  /** `places` says, message by message, which repetition it reports: the repetitions among the pairs before
      `(i, j)`, each once, in the order of the scan. */
  ghost predicate Reporting(cells: seq<NumberCell>, out: seq<Report>, places: seq<Place>, i: nat, j: nat) {
    && |places| == |out|
    && (forall k, l | 0 <= k < l < |places| :: Before(places[k], places[l]))
    && (forall k | 0 <= k < |places| :: var p := places[k];
          && Repeats(cells, p) && Before(p, Place(i, j, false))
          && out[k] == if p.byNumber then NumberRedefinition(cells[p.a].number) else NameRedefinition(cells[p.a].name))
    && (forall p: Place :: Repeats(cells, p) && Before(p, Place(i, j, false)) ==> p in places)
  }

  lemma ReportingPair(cells: seq<NumberCell>, out: seq<Report>, places: seq<Place>, i: nat, j: nat)
    returns (more: seq<Place>)
    requires i < j < |cells| && Reporting(cells, out, places, i, j)
    ensures Reporting(cells, out + PairReports(cells[i], cells[j]), more, i, j + 1)
  {
    var name, number := Place(i, j, false), Place(i, j, true);
    var found := (if Repeats(cells, name) then [name] else []) + (if Repeats(cells, number) then [number] else []);
    more := places + found;
    forall p: Place | Repeats(cells, p) && Before(p, Place(i, j + 1, false))
      ensures p in more
    {
      assert p in places || p in found;
    }
  }

  lemma ReportingRow(cells: seq<NumberCell>, out: seq<Report>, places: seq<Place>, i: nat)
    requires i < |cells|
    ensures Reporting(cells, out, places, i, 0) ==> Reporting(cells, out, places, i, i + 1)
    ensures Reporting(cells, out, places, i, |cells|) ==> Reporting(cells, out, places, i + 1, 0)
  {
  }

  lemma NothingReported(cells: seq<NumberCell>)
    ensures Reporting(cells, [], [], 0, 0)
  {
  }

  lemma {:induction false} RowPlaces(cells: seq<NumberCell>, out: seq<Report>, places: seq<Place>, i: nat, j: nat)
    returns (more: seq<Place>)
    requires i < j <= |cells| && Reporting(cells, out, places, i, i + 1)
    ensures Reporting(cells, out + RowReports(cells, i, j), more, i, j)
  {
    hide Reporting, PairReports;
    if j == i + 1 {
      more := places;
      assert out + [] == out;
    } else {
      more := RowPlaces(cells, out, places, i, j - 1);
      more := ReportingPair(cells, out + RowReports(cells, i, j - 1), more, i, j - 1);
      assert out + RowReports(cells, i, j) == out + RowReports(cells, i, j - 1) + PairReports(cells[i], cells[j - 1]);
    }
  }

  /** The messages of the first `i` rows are their repetitions, each once and in the order of the scan: of a pair
      the name before the number, so a name that three cells share is reported three times. */
  lemma {:induction false} ScanPlaces(cells: seq<NumberCell>, i: nat) returns (places: seq<Place>)
    requires i <= |cells|
    ensures Reporting(cells, ScanReports(cells, i), places, i, 0)
  {
    hide Reporting, RowReports;
    if i == 0 {
      places := [];
      NoReports(cells);
      NothingReported(cells);
    } else {
      places := ScanPlaces(cells, i - 1);
      ReportingRow(cells, ScanReports(cells, i - 1), places, i - 1);
      places := RowPlaces(cells, ScanReports(cells, i - 1), places, i - 1, |cells|);
      ReportingRow(cells, ScanReports(cells, i), places, i - 1);
    }
  }

  /** `smiCheckNamedNumberRedefinition`: one message for each pair of cells with the same name and one
      for each pair with the same number, in the order of the pairs; so a number or a name is reported
      exactly when two cells carry it. */
  method ScanRedefinitions(listPtr: NumberCell?, ghost cells: seq<NumberCell>) returns (out: seq<Report>)
    requires listPtr == At(cells, 0) && Chained(cells)
    ensures out == ScanReports(cells, |cells|)
    ensures ScannedTo(cells, |cells|, |cells|, out)
  {
    hide ScannedTo, ScanReports, RowReports;
    out := [];
    var list1 := listPtr;
    ghost var i: nat := 0;
    ScanRows(cells, 0, out);
    NoReports(cells);
    while list1 != null
      invariant i <= |cells| && list1 == At(cells, i)
      invariant ScannedTo(cells, i, 0, out) && out == ScanReports(cells, i)
      decreases |cells| - i
    {
      var list2 := list1.nextPtr;
      ghost var j: nat := i + 1;
      ScanRows(cells, i, out);
      ReportsRow(cells, i);
      while list2 != null
        invariant i < j <= |cells| && list2 == At(cells, j) && list1 == cells[i]
        invariant ScannedTo(cells, i, j, out) && out == ScanReports(cells, i) + RowReports(cells, i, j)
        decreases |cells| - j
      {
        ScanStep(cells, i, j, out);
        ReportsStep(cells, i, j);
        ghost var was := out;
        if list1.name == list2.name {
          out := out + [NameRedefinition(list1.name)];
        }
        if list1.number == list2.number {
          out := out + [NumberRedefinition(list1.number)];
        }
        assert out == was + PairReports(list1, list2);
        list2, j := list2.nextPtr, j + 1;
      }
      ScanRows(cells, i, out);
      list1, i := list1.nextPtr, i + 1;
    }
    ScanRows(cells, i, out);
  }

  /** When the scan reports no repeated number, the sort does not crash whatever the declared
      order, and gives the one strictly ascending arrangement of the cells. */
  lemma CleanScanCleanSort(kind: Kind, was: seq<NumberCell>, cells: seq<NumberCell>, out: seq<Report>)
    requires ScannedTo(was, |was|, |was|, out) && forall n :: NumberRedefinition(n) !in out
    requires Distinct(cells) && multiset(cells) == multiset(was) && Ascending(cells)
    ensures !Stuck(kind, was) && StrictlyAscending(cells)
  {
    forall i, j | 0 <= i < j < |was|
      ensures was[i].number != was[j].number
    {
      assert NumberRedefinition(was[i].number) !in out;
      assert !RepeatsNumber(was, i, j, was[i].number);
    }
    DistinctNotStuck(kind, was);
    SortedDistinct(was, cells);
  }

  /** The enumeration declared as 2, 2, 1 crashes the sort. */
  method RepeatedNumberCrash() returns (crashed: bool)
    ensures crashed
  {
    var t := new EnumType(Enum, true);
    var a := new NumberCell("a", 2);
    var b := new NumberCell("b", 2);
    var c := new NumberCell("c", 1);
    a.nextPtr, b.nextPtr := b, c;
    t.listPtr, t.cells := a, [a, b, c];
    assert t.cells[0].number == t.cells[1].number;
    assert StuckAt(Enum, t.cells, 1);
    var out;
    crashed, out := t.SortNumbers();
  }
}
