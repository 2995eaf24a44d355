/** What the list left by `smiCheckTypeRanges` means: the numbers it covers, that it is a
    canonical form of them, and that checking it again changes nothing. */
module RangeMeaning {
  import opened SmiValues
  import opened Ranges
  import opened Seqs

  // ---------- merging ----------

  lemma {:induction false} MergeComparable(V: Limits, list: seq<Range>)
    requires Comparable(V, list)
    ensures Comparable(V, Merge(list))
    ensures list != [] ==> Merge(list) != [] && Merge(list)[0].min == list[0].min
    decreases |list|
  {
    if |list| > 1 {
      if Touching(list[0], list[1]) {
        MergeComparable(V, [Range(list[0].min, list[1].max)] + list[2..]);
      } else {
        MergeComparable(V, list[1..]);
      }
    }
  }

  lemma CoversHead(list: seq<Range>, x: int)
    requires list != []
    ensures Covers(list, x) <==> Within(list[0], x) || Covers(list[1..], x)
  {
  }

  /** Merging touching ranges keeps the covered numbers. */
  lemma {:induction false} MergeCovers(V: Limits, list: seq<Range>, x: int)
    requires Comparable(V, list)
    ensures Covers(Merge(list), x) <==> Covers(list, x)
    decreases |list|
  {
    if |list| > 1 {
      hide Covers;
      CoversHead(list, x);
      if Touching(list[0], list[1]) {
        var joined := [Range(list[0].min, list[1].max)] + list[2..];
        CoversHead(list[1..], x);
        CoversHead(joined, x);
        assert joined[1..] == list[2..] && list[1..][1..] == list[2..];
        MergeCovers(V, joined, x);
      } else {
        CoversHead(Merge(list), x);
        MergeCovers(V, list[1..], x);
      }
    }
  }

  lemma CanonicalCons(V: Limits, r: Range, rest: seq<Range>)
    requires Comparable(V, rest) && Canonical(rest)
    requires rest != [] ==> Hi(r) + 1 < Lo(rest[0])
    ensures Canonical([r] + rest)
  {
  }

  /** Merging separate ranges leaves an uncovered value between any two neighbours. */
  lemma {:induction false} MergeCanonical(V: Limits, list: seq<Range>)
    requires Comparable(V, list) && Separate(list)
    ensures Canonical(Merge(list))
    decreases |list|
  {
    if |list| > 1 {
      if Touching(list[0], list[1]) {
        MergeCanonical(V, [Range(list[0].min, list[1].max)] + list[2..]);
      } else {
        var rest := Merge(list[1..]);
        MergeCanonical(V, list[1..]);
        MergeComparable(V, list[1..]);
        assert Hi(list[0]) + 1 < Lo(rest[0]);
        CanonicalCons(V, list[0], rest);
      }
    }
  }

  lemma {:induction false} MergeOfCanonical(V: Limits, list: seq<Range>)
    requires Comparable(V, list) && Canonical(list)
    ensures Merge(list) == list
    decreases |list|
  {
    if |list| > 1 {
      MergeOfCanonical(V, list[1..]);
    }
  }

  // ---------- canonical form ----------

  lemma CanonicalHead(V: Limits, list: seq<Range>, x: int)
    requires Comparable(V, list) && Canonical(list) && list != []
    ensures Covers(list, x) ==> Lo(list[0]) <= x
    ensures Covers(list, x) && x <= Hi(list[0]) + 1 ==> Within(list[0], x)
    ensures Covers(list[1..], x) <==> Covers(list, x) && x > Hi(list[0])
    ensures Covers(list, Lo(list[0])) && Covers(list, Hi(list[0]))
  {
  }

  lemma CoversOwnStart(V: Limits, list: seq<Range>)
    requires Comparable(V, list)
    ensures list != [] ==> Covers(list, Lo(list[0]))
  {
  }

  lemma SameHead(V: Limits, a: seq<Range>, b: seq<Range>)
    requires Comparable(V, a) && Comparable(V, b) && Canonical(a) && Canonical(b) && SameCover(a, b)
    requires a != [] && b != []
    ensures Lo(a[0]) <= Lo(b[0]) && (Lo(a[0]) == Lo(b[0]) ==> Hi(b[0]) <= Hi(a[0]))
  {
    CanonicalHead(V, b, 0);
    CanonicalHead(V, a, Lo(b[0]));
    assert Covers(a, Lo(b[0]));
    CanonicalHead(V, a, Hi(a[0]) + 1);
    CanonicalHead(V, b, Hi(a[0]) + 1);
    assert Covers(a, Hi(a[0]) + 1) <==> Covers(b, Hi(a[0]) + 1);
    CoversHead(b, Hi(a[0]) + 1);
  }

  lemma FirstSame(V: Limits, a: seq<Range>, b: seq<Range>)
    requires Comparable(V, a) && Comparable(V, b) && OneValueEach(V) && a != [] && b != []
    requires Lo(a[0]) == Lo(b[0]) && Hi(a[0]) == Hi(b[0])
    ensures a[0] == b[0]
  {
    assert a[0].min in V && a[0].max in V && b[0].min in V && b[0].max in V;
  }

  /** Two canonical lists that cover the same numbers are the same list. */
  lemma {:induction false} CanonicalUnique(V: Limits, a: seq<Range>, b: seq<Range>)
    requires Comparable(V, a) && Comparable(V, b) && Canonical(a) && Canonical(b) && SameCover(a, b)
    requires OneValueEach(V)
    ensures a == b
    decreases |a|
  {
    CoversOwnStart(V, a);
    CoversOwnStart(V, b);
    if a != [] {
      assert Covers(b, Lo(a[0]));
      SameHead(V, a, b);
      SameHead(V, b, a);
      FirstSame(V, a, b);
      forall x
        ensures Covers(a[1..], x) <==> Covers(b[1..], x)
      {
        CanonicalHead(V, a, x);
        CanonicalHead(V, b, x);
      }
      CanonicalUnique(V, a[1..], b[1..]);
    }
  }

  // ---------- the declared ranges ----------

  /** The numbers of a declared range, whichever way round its limits were written. */
  ghost predicate DeclaredWithin(r: Range, x: int) {
    (if Lo(r) <= Hi(r) then Lo(r) else Hi(r)) <= x <= (if Lo(r) <= Hi(r) then Hi(r) else Lo(r))
  }

  ghost predicate DeclaredCovers(rs: seq<Range>, x: int) {
    exists i :: 0 <= i < |rs| && DeclaredWithin(rs[i], x)
  }

  lemma NoSortReportInPrepare(base: BaseType, r: Range)
    ensures Overlap !in PrepareReports(base, r) && NotAscending !in PrepareReports(base, r)
  {
  }

  lemma PreparePrefix(base: BaseType, rs: seq<Range>)
    requires rs != []
    ensures var n := |rs| - 1; var ds := PrepareAll(base, rs);
      ds[..n] == PrepareAll(base, rs[..n]) && ds[n] == Prepare(base, rs[n])
  {
  }

  lemma {:induction false} ReportsOfRun(base: BaseType, rs: seq<Range>, e: Report)
    requires e == Overlap || e == NotAscending
    ensures e in RunReports(base, rs) <==> e in SortReports(PrepareAll(base, rs))
  {
    if rs != [] {
      hide InsertReports, Prepare, PrepareAll, PrepareReports, SortAll;
      var n := |rs| - 1;
      ReportsOfRun(base, rs[..n], e);
      NoSortReportInPrepare(base, rs[n]);
      PreparePrefix(base, rs);
    }
  }

  lemma {:induction false} NoBaseReport(base: BaseType, rs: seq<Range>, i: nat)
    requires OutOfBasetype !in RunReports(base, rs) && i < |rs|
    ensures OutOfBasetype !in PrepareReports(base, rs[i])
  {
    hide PrepareReports, InsertReports;
    var n := |rs| - 1;
    if i < n {
      NoBaseReport(base, rs[..n], i);
    }
  }

  lemma DeclaredRange(base: BaseType, V: Limits, rs: seq<Range>, i: nat)
    requires Uniform(base, V, rs) && i < |rs|
    ensures Is32Range(rs[i]) && PrepareAll(base, rs)[i] == Prepare(base, rs[i])
  {
    hide Prepare;
  }

  lemma LimitsCompareRight(base: BaseType, V: Limits, rs: seq<Range>, i: nat)
    requires Uniform(base, V, rs) && i < |rs| && base.Unknown?
    ensures ComparesRight(rs[i].min, rs[i].max)
  {
    CompareExactly(rs[i].min, rs[i].max);
    hide CompareValues;
  }

  lemma {:induction false} PreparedCovers(base: BaseType, V: Limits, rs: seq<Range>, x: int)
    requires Uniform(base, V, rs) && OutOfBasetype !in RunReports(base, rs)
    ensures Covers(PrepareAll(base, rs), x) <==> DeclaredCovers(rs, x)
  {
    forall i | 0 <= i < |rs|
      ensures Within(PrepareAll(base, rs)[i], x) <==> DeclaredWithin(rs[i], x)
    {
      hide RunReports, Uniform, PrepareReports, Prepare, ComparesRight;
      NoBaseReport(base, rs, i);
      if base.Unknown? {
        LimitsCompareRight(base, V, rs, i);
      }
      DeclaredRange(base, V, rs, i);
      PreparedMeaning(base, rs[i]);
    }
  }

  lemma SameElementsCover(a: seq<Range>, b: seq<Range>, x: int)
    requires multiset(a) == multiset(b)
    ensures Covers(a, x) <==> Covers(b, x)
  {
    SameElements(a, b);
  }

  // ---------- main results ----------

  /** With every limit inside the base type and no range declared between two others, the list
      left behind covers exactly the declared numbers. */
  lemma {:induction false} CoverageKept(base: BaseType, V: Limits, rs: seq<Range>, x: int)
    requires Uniform(base, V, rs)
    requires OutOfBasetype !in RunReports(base, rs) && NoMiddle(PrepareAll(base, rs))
    ensures Covers(Checked(base, rs), x) <==> DeclaredCovers(rs, x)
  {
    hide Covers, NoMiddle, Comparable, SortAll, Merge, RunReports;
    var ds := PrepareAll(base, rs);
    PreparedComparable(base, V, rs);
    PreparedCovers(base, V, rs, x);
    SortKeepsAll(V, ds);
    SortSorted(V, ds);
    SameElementsCover(SortAll(ds), ds, x);
    MergeCovers(V, SortAll(ds), x);
  }

  /** Without an overlap report the list left behind is canonical, whatever order the ranges
      were declared in. */
  lemma {:induction false} CheckedCanonical(base: BaseType, V: Limits, rs: seq<Range>)
    requires Uniform(base, V, rs) && Overlap !in RunReports(base, rs)
    ensures Comparable(V, Checked(base, rs)) && Canonical(Checked(base, rs))
  {
    hide Comparable, SortAll, Merge, RunReports, SortReports, Canonical, Separate;
    var ds := PrepareAll(base, rs);
    PreparedComparable(base, V, rs);
    ReportsOfRun(base, rs, Overlap);
    SortSorted(V, ds);
    SilentSortSeparate(V, ds);
    MergeComparable(V, SortAll(ds));
    MergeCanonical(V, SortAll(ds));
  }

  /** What the order and overlap messages of a run mean for the declared ranges, limits exchanged
      where needed: the order message appears exactly when the lower bounds do not strictly ascend;
      the overlap message appears exactly when a range shares a value with one not cut off before, so
      it is always right, and never missing when no range is declared between two others. */
  lemma {:induction false} RunReportsMeaning(base: BaseType, V: Limits, rs: seq<Range>)
    requires Uniform(base, V, rs)
    ensures var ds := PrepareAll(base, rs);
      && (NotAscending in RunReports(base, rs) <==> !StrictlyAscending(ds))
      && (Overlap in RunReports(base, rs) <==> MeetsKept(ds))
      && (Overlap in RunReports(base, rs) ==> SomeOverlap(ds))
      && (NoMiddle(ds) && SomeOverlap(ds) ==> Overlap in RunReports(base, rs))
  {
    hide Comparable, RunReports, SortReports, StrictlyAscending, SomeOverlap, NoMiddle, PrepareAll, MeetsKept;
    var ds := PrepareAll(base, rs);
    PreparedComparable(base, V, rs);
    OverlapReportedExactly(V, ds);
    ReportsOfRun(base, rs, NotAscending);
    ReportsOfRun(base, rs, Overlap);
    AscendingExact(V, ds);
    if Overlap in SortReports(ds) {
      OverlapSound(V, ds);
    }
    if NoMiddle(ds) {
      OverlapExact(V, ds);
    }
  }

  lemma {:induction false} RunReportsNext(base: BaseType, rs: seq<Range>, n: nat)
    requires n < |rs|
    ensures RunReports(base, rs[..n + 1]) == RunReports(base, rs[..n])
      + (PrepareReports(base, rs[n]) + InsertReports(SortAll(PrepareAll(base, rs[..n])), Prepare(base, rs[n])))
    ensures n == 0 ==> RunReports(base, rs[..n]) == []
  {
    assert rs[..n + 1][..n] == rs[..n] && rs[..n + 1][n] == rs[n];
  }

  lemma PreparedBefore(base: BaseType, V: Limits, rs: seq<Range>, n: nat)
    requires Comparable(V, PrepareAll(base, rs)) && n < |rs|
    ensures Comparable(V, PrepareAll(base, rs[..n])) && Comparable(V, [Prepare(base, rs[n])])
  {
    var ds := PrepareAll(base, rs);
    assert ds[n] == Prepare(base, rs[n]) && ds[..n] == PrepareAll(base, rs[..n]);
  }

  /** The messages of a run, range by range.  Range `n` meets the list as it then stands, in which `k` ranges
      start below it; its messages come after those of the ranges before it. */
  lemma RunReportsExactly(base: BaseType, V: Limits, rs: seq<Range>, n: nat) returns (k: nat)
    requires Uniform(base, V, rs) && n < |rs| && (base.OctetString? ==> Scanned(rs[n]))
    ensures var list, p := SortAll(PrepareAll(base, rs[..n])), Prepare(base, rs[n]);
      && k <= |list|
      && (forall i | 0 <= i < k :: Lo(list[i]) < Lo(p)) && (forall i | k <= i < |list| :: Lo(p) <= Lo(list[i]))
      && RunReports(base, rs[..n + 1])
        == RunReports(base, rs[..n]) + (LimitMessages(base, rs[n]) + PlaceMessages(list, p, k))
    ensures n == 0 ==> RunReports(base, rs[..n]) == []
  {
    hide InBase, Comparable, Prepare, PrepareReports, InsertReports, LimitMessages, PlaceMessages, RunReports;
    hide SortAll, PrepareAll, Sorted, Uniform, ComparesRight;
    var list, p := SortAll(PrepareAll(base, rs[..n])), Prepare(base, rs[n]);
    DeclaredRange(base, V, rs, n);
    if base.Unknown? {
      LimitsCompareRight(base, V, rs, n);
    }
    PrepareReportsExactly(base, rs[n]);
    PreparedComparable(base, V, rs);
    PreparedBefore(base, V, rs, n);
    SortSorted(V, PrepareAll(base, rs[..n]));
    k := InsertReportsExactly(V, list, p);
    RunReportsNext(base, rs, n);
  }

  /** The declaration was accepted without a report that loses numbers. */
  ghost predicate Clean(base: BaseType, rs: seq<Range>) {
    && Declared(rs)
    && OutOfBasetype !in RunReports(base, rs)
    && Overlap !in RunReports(base, rs)
    && NoMiddle(PrepareAll(base, rs))
  }

  /** Two clean declarations of the same numbers end as identical lists. */
  lemma SameNumbersSameList(base: BaseType, V: Limits, rs: seq<Range>, rs': seq<Range>)
    requires Uniform(base, V, rs) && Uniform(base, V, rs') && Clean(base, rs) && Clean(base, rs')
    requires forall x :: DeclaredCovers(rs, x) <==> DeclaredCovers(rs', x)
    requires base.Unknown? ==> OneValueEach(V)
    ensures Checked(base, rs) == Checked(base, rs')
  {
    hide Comparable, OneValueEach, Canonical, DeclaredCovers, Checked, Covers, RunReports;
    CheckedCanonical(base, V, rs);
    CheckedCanonical(base, V, rs');
    forall x
      ensures Covers(Checked(base, rs), x) <==> Covers(Checked(base, rs'), x)
    {
      CoverageKept(base, V, rs, x);
      CoverageKept(base, V, rs', x);
    }
    if !base.Unknown? {
      OneBaseAgrees(ListBase(base));
    }
    CanonicalUnique(V, Checked(base, rs), Checked(base, rs'));
  }

  lemma Apart(ds: seq<Range>, i: nat, j: nat, x: int)
    requires !SomeOverlap(ds) && i < |ds| && j < |ds| && i != j && Within(ds[i], x)
    ensures !Within(ds[j], x)
  {
  }

  lemma OnlyOnce(V: Limits, ds: seq<Range>, i: nat)
    requires Comparable(V, ds) && !SomeOverlap(ds) && i < |ds|
    ensures multiset(ds)[ds[i]] == 1
  {
    var r := ds[i];
    assert ds == ds[..i] + [r] + ds[i + 1..];
    forall j | 0 <= j < |ds| && j != i
      ensures ds[j] != r
    {
      Apart(ds, i, j, Lo(r));
    }
    assert r !in ds[..i] && r !in ds[i + 1..];
  }

  lemma LostRange(V: Limits, list: seq<Range>, ds: seq<Range>, r: Range)
    requires Comparable(V, ds) && !SomeOverlap(ds)
    requires multiset(list) <= multiset(ds) && multiset(list)[r] < multiset(ds)[r]
    ensures Covers(ds, Lo(r)) && !Covers(list, Lo(r))
  {
    assert r in multiset(ds);
    var i :| 0 <= i < |ds| && ds[i] == r;
    assert Within(ds[i], Lo(r));
    OnlyOnce(V, ds, i);
    forall k | 0 <= k < |list|
      ensures !Within(list[k], Lo(r))
    {
      var j := IndexIn(list, ds, k);
      assert list[k] in multiset(list);
      Apart(ds, i, j, Lo(r));
    }
  }

  /** Among ranges that share no value, the covered numbers survive the sort exactly when no range
      is declared between two others: every cut loses numbers. */
  lemma {:induction false} CutAlwaysLoses(V: Limits, ds: seq<Range>)
    requires Comparable(V, ds) && !SomeOverlap(ds)
    ensures SameCover(SortAll(ds), ds) <==> NoMiddle(ds)
  {
    hide Covers, NoMiddle, Comparable, SortAll, SomeOverlap;
    SortElements(V, ds);
    SortKeepsAll(V, ds);
    if NoMiddle(ds) {
      forall x
        ensures Covers(SortAll(ds), x) <==> Covers(ds, x)
      {
        SameElementsCover(SortAll(ds), ds, x);
      }
    } else {
      var r :| multiset(SortAll(ds))[r] < multiset(ds)[r];
      LostRange(V, SortAll(ds), ds, r);
    }
  }

  lemma PreparedFits(base: BaseType, V: Limits, r: Range)
    requires ListHas(base, V) && Is32(r.min) && Is32(r.max) && OutOfBasetype !in PrepareReports(base, r)
    requires Scanned(r)
    ensures !LimitReported(base, Prepare(base, r).min) && !LimitReported(base, Prepare(base, r).max)
  {
  }

  /** No limit is outside the base type. */
  ghost predicate Fits(base: BaseType, list: seq<Range>) {
    forall i | 0 <= i < |list| :: !LimitReported(base, list[i].min) && !LimitReported(base, list[i].max)
  }

  lemma {:induction false} MergeFits(base: BaseType, list: seq<Range>)
    requires Fits(base, list)
    ensures Fits(base, Merge(list))
    decreases |list|
  {
    if |list| > 1 {
      hide LimitReported;
      if Touching(list[0], list[1]) {
        MergeFits(base, [Range(list[0].min, list[1].max)] + list[2..]);
      } else {
        MergeFits(base, list[1..]);
      }
    }
  }

  lemma {:induction false} CheckedFits(base: BaseType, V: Limits, rs: seq<Range>)
    requires Uniform(base, V, rs) && OutOfBasetype !in RunReports(base, rs)
    requires forall i | 0 <= i < |rs| :: Scanned(rs[i])
    ensures Fits(base, Checked(base, rs))
  {
    var ds := PrepareAll(base, rs);
    forall i | 0 <= i < |rs|
      ensures !LimitReported(base, ds[i].min) && !LimitReported(base, ds[i].max)
    {
      hide RunReports;
      NoBaseReport(base, rs, i);
      PreparedFits(base, V, rs[i]);
    }
    hide RunReports, PrepareAll, SortAll, LimitReported;
    PreparedComparable(base, V, rs);
    SortElements(V, ds);
    forall k | 0 <= k < |SortAll(ds)|
      ensures !LimitReported(base, SortAll(ds)[k].min) && !LimitReported(base, SortAll(ds)[k].max)
    {
      var i := IndexIn(SortAll(ds), ds, k);
    }
    MergeFits(base, SortAll(ds));
  }

  lemma FittingSilent(base: BaseType, V: Limits, r: Range)
    requires ListHas(base, V) && Comparable(V, [r])
    requires !LimitReported(base, r.min) && !LimitReported(base, r.max)
    ensures PrepareReports(base, r) == []
  {
    assert [r][0] == r;
    assert UnifyRange(base, r) == r;
  }

  lemma {:induction false} SilentRun(base: BaseType, V: Limits, rs: seq<Range>)
    requires ListHas(base, V) && Comparable(V, rs) && Fits(base, rs)
    requires SortReports(PrepareAll(base, rs)) == []
    ensures RunReports(base, rs) == []
  {
    if rs != [] {
      var n := |rs| - 1;
      ComparableSplit(V, rs);
      FittingSilent(base, V, rs[n]);
      hide InsertReports, Prepare, PrepareReports, PrepareAll, SortAll, LimitReported;
      PreparePrefix(base, rs);
      SilentRun(base, V, rs[..n]);
    }
  }

  lemma PreparedAgain(base: BaseType, V: Limits, list: seq<Range>)
    requires ListHas(base, V) && Comparable(V, list)
    ensures PrepareAll(base, list) == list
  {
  }

  lemma CanonicalAscending(V: Limits, list: seq<Range>)
    requires Comparable(V, list) && Canonical(list)
    ensures StrictlyAscending(list) && Separate(list)
  {
  }

  lemma AppendSilent(V: Limits, list: seq<Range>, p: Range)
    requires Comparable(V, list) && Comparable(V, [p])
    requires forall i | 0 <= i < |list| :: Hi(list[i]) < Lo(p)
    ensures InsertReports(list, p) == []
  {
    assert [p][0] == p;
    if list != [] {
      assert Hi(list[0]) < Lo(p);
      var k := FindAfter(list, p, 0);
      assert Hi(list[k]) < Lo(p);
    }
  }

  lemma {:induction false} SilentOnSeparate(V: Limits, ds: seq<Range>)
    requires Comparable(V, ds) && StrictlyAscending(ds) && Separate(ds)
    ensures SortReports(ds) == []
  {
    if ds != [] {
      hide Comparable, StrictlyAscending, SortAll;
      var n := |ds| - 1;
      ComparableSplit(V, ds);
      AscendingStep(ds);
      SilentOnSeparate(V, ds[..n]);
      AscendingIsSorted(V, ds[..n]);
      AppendExact(V, ds[..n], ds[n]);
      AppendSilent(V, ds[..n], ds[n]);
    }
  }

  /** Checking the list again after a run without an out-of-basetype or overlap report prints
      nothing and changes nothing. */
  lemma {:induction false} CheckedTwice(base: BaseType, V: Limits, rs: seq<Range>)
    requires Uniform(base, V, rs) && forall i | 0 <= i < |rs| :: Scanned(rs[i])
    requires OutOfBasetype !in RunReports(base, rs) && Overlap !in RunReports(base, rs)
    ensures RunReports(base, Checked(base, rs)) == []
    ensures Checked(base, Checked(base, rs)) == Checked(base, rs)
  {
    hide Comparable, Canonical, RunReports, Fits, StrictlyAscending, Separate, SortAll, Merge, PrepareAll;
    var list := Checked(base, rs);
    CheckedCanonical(base, V, rs);
    CheckedFits(base, V, rs);
    PreparedAgain(base, V, list);
    CanonicalAscending(V, list);
    AscendingIsSorted(V, list);
    MergeOfCanonical(V, list);
    SilentOnSeparate(V, list);
    SilentRun(base, V, list);
  }

  // ---------- default values ----------

  predicate Accepts(r: Range, v: Value) {
    CompareValues(r.min, v) <= 0 && CompareValues(r.max, v) >= 0
  }

  /** The value read with the type's base type lies in one of the ranges of the list. */
  ghost predicate InSomeRange(list: seq<Range>, v: Value) {
    exists i :: 0 <= i < |list| && Accepts(list[i], v)
  }

  predicate DefvalOutOfBase(base: BaseType, v: Value) {
    || (base.Integer32? && v.base.Unsigned32? && v.bits > 2147483647)
    || (base.Unsigned32? && v.base.Integer32? && Signed(v.bits) < 0)
  }

  /** The messages of `smiCheckValueType` for a 32-bit default value. */
  ghost function DefvalReports(base: BaseType, list: seq<Range>, v: Value): seq<Report> {
    if v.base.Unknown? then []
    else
      (if DefvalOutOfBase(base, v) then [DefvalOutOfBasetype] else [])
      + (if Is32(v.(base := base)) && list != [] && !InSomeRange(list, v.(base := base))
         then [DefvalOutOfRange] else [])
  }

  lemma AcceptsIsWithin(r: Range, v: Value)
    requires r.min.base == v.base && r.max.base == v.base && Is32(v)
    ensures Accepts(r, v) <==> Within(r, Number(v))
  {
  }

  lemma MergeOfNothing()
    ensures Merge([]) == []
  {
  }

  lemma {:induction false} SortNonEmpty(ds: seq<Range>)
    ensures SortAll(ds) == [] <==> ds == []
  {
  }

  lemma CheckedComparable(base: BaseType, V: Limits, rs: seq<Range>)
    requires Uniform(base, V, rs)
    ensures Comparable(V, Checked(base, rs))
    ensures Checked(base, rs) == [] <==> rs == []
  {
    hide Comparable, Merge;
    var ds := PrepareAll(base, rs);
    PreparedComparable(base, V, rs);
    SortSorted(V, ds);
    MergeComparable(V, SortAll(ds));
    SortNonEmpty(ds);
    assert Merge([]) == [] by { MergeOfNothing(); }
  }

  lemma InRangesIsCovered(base: BaseType, list: seq<Range>, v: Value)
    requires Comparable(Of(base), list) && v.base == base && Is32(v)
    ensures InSomeRange(list, v) <==> Covers(list, Number(v))
  {
    forall i | 0 <= i < |list|
      ensures Accepts(list[i], v) <==> Within(list[i], Number(v))
    {
      assert list[i].min in Of(base) && list[i].max in Of(base);
      AcceptsIsWithin(list[i], v);
    }
  }

  /** A default of a 32-bit type is reported out of range exactly when there are declared ranges
      and none of them, as originally written, holds it.  It is reported outside the base type exactly
      when its number is not one of the base type; otherwise the number looked for is the default itself. */
  lemma {:induction false} DefaultCheckedAgainstDeclared(base: BaseType, rs: seq<Range>, v: Value)
    requires (base.Integer32? || base.Unsigned32?) && Is32(v) && Declared(rs)
    requires OutOfBasetype !in RunReports(base, rs) && NoMiddle(PrepareAll(base, rs))
    ensures DefvalReports(base, Checked(base, rs), v)
      == When(!InBase(base, Number(v)), DefvalOutOfBasetype)
         + When(rs != [] && !DeclaredCovers(rs, Number(v.(base := base))), DefvalOutOfRange)
    ensures InBase(base, Number(v)) ==> Number(v.(base := base)) == Number(v)
  {
    hide Checked, RunReports, NoMiddle, DeclaredCovers, CompareValues, Accepts, Within, Covers, InSomeRange, Comparable;
    OneBaseAgrees(base);
    CheckedComparable(base, Of(base), rs);
    CoverageKept(base, Of(base), rs, Number(v.(base := base)));
    InRangesIsCovered(base, Checked(base, rs), v.(base := base));
  }
}
