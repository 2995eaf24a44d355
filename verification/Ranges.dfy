/** What `smiCheckTypeRanges` does to a list of ranges, as functions on sequences, and what
    that means for the numbers the ranges cover.  The in-place version is in RangeLists. */
module Ranges {
  import opened SmiValues
  import opened Seqs

  datatype Range = Range(min: Value, max: Value)

  datatype Report =
    | OutOfBasetype
    | ExchangedLimits
    | Overlap
    | NotAscending
    | DefvalOutOfBasetype
    | DefvalOutOfRange

  // ---------- one range: base type and limits ----------

  function UnifiedBase(base: BaseType, v: Value): BaseType {
    match base
    case Integer32 => Integer32
    case Unsigned32 => Unsigned32
    case OctetString => Unsigned32
    case Unknown => v.base
  }

  /** The limit is reported as outside the base type. */
  predicate LimitReported(base: BaseType, v: Value) {
    match base
    case Integer32 => v.base.Unsigned32? && v.bits > 2147483647
    case Unsigned32 => v.base.Integer32? && Signed(v.bits) < 0
    case OctetString => (v.base.Integer32? && Signed(v.bits) < 0) || (v.base.Unsigned32? && v.bits > 65535)
    case Unknown => false
  }

  function Unify(base: BaseType, v: Value): Value {
    Value(UnifiedBase(base, v), v.bits)
  }

  function UnifyRange(base: BaseType, r: Range): Range {
    Range(Unify(base, r.min), Unify(base, r.max))
  }

  predicate LimitsExchanged(r: Range) {
    CompareValues(r.min, r.max) > 0
  }

  /** A declared range after its limits got the type's base type and were put in order. */
  function Prepare(base: BaseType, r: Range): Range {
    var u := UnifyRange(base, r);
    if LimitsExchanged(u) then Range(u.max, u.min) else u
  }

  /** A message printed under a condition. */
  function When(c: bool, e: Report): seq<Report> {
    if c then [e] else []
  }

  function PrepareReports(base: BaseType, r: Range): seq<Report> {
    When(LimitReported(base, r.min), OutOfBasetype) + When(LimitReported(base, r.max), OutOfBasetype)
    + When(LimitsExchanged(UnifyRange(base, r)), ExchangedLimits)
  }

  function PrepareAll(base: BaseType, rs: seq<Range>): (ds: seq<Range>)
    ensures |ds| == |rs|
  {
    seq(|rs|, i requires 0 <= i < |rs| => Prepare(base, rs[i]))
  }

  // ---------- the insertion sort, which may cut the list ----------

  /** The position after which `p` goes, when it does not go in front. */
  function FindAfter(list: seq<Range>, p: Range, k: nat): (j: nat)
    requires k < |list|
    ensures k <= j < |list|
    ensures j + 1 == |list| || CompareValues(p.min, list[j + 1].min) <= 0
    ensures forall i | k < i <= j :: CompareValues(p.min, list[i].min) > 0
    decreases |list| - k
  {
    if k + 1 == |list| || CompareValues(p.min, list[k + 1].min) <= 0 then k
    else FindAfter(list, p, k + 1)
  }

  /** A range that goes between two others is lost together with everything after it: the link
      just made to it is cleared again. */
  function Insert(list: seq<Range>, p: Range): seq<Range> {
    if list == [] then [p]
    else if CompareValues(p.min, list[0].min) <= 0 then [p] + list
    else
      var k := FindAfter(list, p, 0);
      if k + 1 < |list| then list[..k + 1] else list + [p]
  }

  function InsertReports(list: seq<Range>, p: Range): seq<Report> {
    if list == [] then []
    else if CompareValues(p.min, list[0].min) <= 0 then
      When(CompareValues(p.max, list[0].min) >= 0, Overlap) + [NotAscending]
    else
      var k := FindAfter(list, p, 0);
      When((k + 1 < |list| && CompareValues(p.max, list[k + 1].min) >= 0)
           || CompareValues(p.min, list[k].max) <= 0, Overlap)
      + When(k + 1 < |list|, NotAscending)
  }

  function SortAll(ds: seq<Range>): seq<Range> {
    if ds == [] then [] else Insert(SortAll(ds[..|ds| - 1]), ds[|ds| - 1])
  }

  function SortReports(ds: seq<Range>): seq<Report> {
    if ds == [] then []
    else SortReports(ds[..|ds| - 1]) + InsertReports(SortAll(ds[..|ds| - 1]), ds[|ds| - 1])
  }

  /** All reports of a run, in the order they are printed. */
  function RunReports(base: BaseType, rs: seq<Range>): seq<Report> {
    if rs == [] then []
    else
      var n := |rs| - 1;
      RunReports(base, rs[..n]) + PrepareReports(base, rs[n])
      + InsertReports(SortAll(PrepareAll(base, rs[..n])), Prepare(base, rs[n]))
  }

  // ---------- merging of adjacent ranges ----------

  predicate Touching(a: Range, b: Range) {
    CompareValues(a.max, b.min) == -1
  }

  function Merge(list: seq<Range>): seq<Range>
    decreases |list|
  {
    if |list| <= 1 then list
    else if Touching(list[0], list[1]) then Merge([Range(list[0].min, list[1].max)] + list[2..])
    else [list[0]] + Merge(list[1..])
  }

  /** The list that `smiCheckTypeRanges` leaves behind. */
  function Checked(base: BaseType, rs: seq<Range>): seq<Range> {
    Merge(SortAll(PrepareAll(base, rs)))
  }

  // ---------- meaning ----------

  ghost function Lo(r: Range): int { Number(r.min) }

  ghost function Hi(r: Range): int { Number(r.max) }

  /** A set of limits among which every comparison is right. */
  type Limits = iset<Value>

  ghost predicate Agreeing(V: Limits) {
    forall a, b {:trigger CompareValues(a, b)} | a in V && b in V ::
      Classifies(CompareValues(a, b), Number(a) - Number(b))
  }

  /** Ranges with such limits, in order. */
  ghost predicate Comparable(V: Limits, list: seq<Range>) {
    && Agreeing(V)
    && forall i | 0 <= i < |list| :: list[i].min in V && list[i].max in V && Lo(list[i]) <= Hi(list[i])
  }

  /** No number stands for two limits. */
  ghost predicate OneValueEach(V: Limits) {
    forall a, b {:trigger a in V, b in V} | a in V && b in V && Number(a) == Number(b) :: a == b
  }

  /** The values of one base. */
  ghost function Of(base: BaseType): Limits {
    iset v: Value | v.base == base
  }

  /** For 32-bit values: exactly when the condition for a right comparison holds for any two of them. */
  lemma AgreeingExactly(V: Limits)
    requires forall v | v in V :: Is32(v)
    ensures Agreeing(V) <==> forall a, b | a in V && b in V :: ComparesRight(a, b)
  {
    forall a, b | a in V && b in V
      ensures Classifies(CompareValues(a, b), Number(a) - Number(b)) <==> ComparesRight(a, b)
    {
      CompareExactly(a, b);
    }
  }

  lemma OneBaseAgrees(base: BaseType)
    requires base.Integer32? || base.Unsigned32?
    ensures Agreeing(Of(base)) && OneValueEach(Of(base))
  {
  }

  /** Signed limits below -1 beside unsigned ones of any size: only -1 and -0 can mislead the comparison,
      for the scanner makes a signed limit of nothing but a number with a minus sign. */
  lemma BelowMinusOneAgrees(V: Limits)
    requires forall v | v in V :: Is32(v) && (v.base.Integer32? ==> Number(v) < -1)
    ensures Agreeing(V) && OneValueEach(V)
  {
    AgreeingExactly(V);
  }

  ghost predicate Within(r: Range, x: int) {
    Lo(r) <= x <= Hi(r)
  }

  ghost predicate Covers(list: seq<Range>, x: int) {
    exists i :: 0 <= i < |list| && Within(list[i], x)
  }

  ghost predicate SameCover(a: seq<Range>, b: seq<Range>) {
    forall x :: Covers(a, x) <==> Covers(b, x)
  }

  ghost predicate Sorted(list: seq<Range>) {
    forall i, j | 0 <= i < j < |list| :: Lo(list[i]) <= Lo(list[j])
  }

  /** Ascending with no shared value. */
  ghost predicate Separate(list: seq<Range>) {
    forall i, j | 0 <= i < j < |list| :: Hi(list[i]) < Lo(list[j])
  }

  /** Ascending with at least one uncovered value between neighbours. */
  ghost predicate Canonical(list: seq<Range>) {
    forall i, j | 0 <= i < j < |list| :: Hi(list[i]) + 1 < Lo(list[j])
  }

  ghost predicate ShareValue(a: Range, b: Range) {
    exists x :: Within(a, x) && Within(b, x)
  }

  /** Two different declared ranges share a value. */
  ghost predicate SomeOverlap(ds: seq<Range>) {
    exists i, j :: 0 <= i < j < |ds| && ShareValue(ds[i], ds[j])
  }

  ghost predicate StrictlyAscending(ds: seq<Range>) {
    forall i, j | 0 <= i < j < |ds| :: Lo(ds[i]) < Lo(ds[j])
  }

  ghost predicate BelowAll(p: Range, list: seq<Range>) {
    forall i | 0 <= i < |list| :: Lo(p) <= Lo(list[i])
  }

  ghost predicate AboveAll(p: Range, list: seq<Range>) {
    forall i | 0 <= i < |list| :: Lo(list[i]) < Lo(p)
  }

  /** Every range starts at or below all ranges declared before it, or above all of them: then
      none is inserted between two others. */
  ghost predicate NoMiddle(ds: seq<Range>) {
    forall j | 0 <= j < |ds| :: BelowAll(ds[j], ds[..j]) || AboveAll(ds[j], ds[..j])
  }

  // ---------- preparing ranges ----------

  ghost function ListBase(base: BaseType): BaseType
    requires !base.Unknown?
  {
    if base.Integer32? then Integer32 else Unsigned32
  }

  predicate Is32Range(r: Range) {
    Is32(r.min) && Is32(r.max)
  }

  ghost predicate Declared(rs: seq<Range>) {
    forall i | 0 <= i < |rs| :: Is32Range(rs[i])
  }

  /** The limits of a list prepared under the type's base: a defined type gives all one base, a type not
      yet defined leaves them what base they have. */
  ghost predicate ListHas(base: BaseType, V: Limits) {
    if base.Unknown? then Agreeing(V) else V == Of(ListBase(base))
  }

  /** 32-bit limits that compare rightly once the type's base was applied: those of any defined type, and
      those of a type not yet defined when every comparison among them is right. */
  ghost predicate Uniform(base: BaseType, V: Limits, rs: seq<Range>) {
    && Declared(rs) && ListHas(base, V)
    && (base.Unknown? ==> forall i | 0 <= i < |rs| :: rs[i].min in V && rs[i].max in V)
  }

  /** All comparisons of the sort and of the merge are then right.  For every defined base type they are
      between two limits of one base: the mixed branches of `compareValues` are not reached. */
  lemma PreparedComparable(base: BaseType, V: Limits, rs: seq<Range>)
    requires Uniform(base, V, rs)
    ensures Comparable(V, PrepareAll(base, rs))
  {
  }

  /** Without an out-of-basetype report the prepared range covers exactly the numbers between
      the two declared limits, whichever of them was written first; and the exchange is reported
      iff the first limit was the larger. */
  lemma PreparedMeaning(base: BaseType, r: Range)
    requires Is32Range(r) && (base.Unknown? ==> ComparesRight(r.min, r.max))
    requires OutOfBasetype !in PrepareReports(base, r)
    ensures var p := Prepare(base, r);
      && (Lo(p), Hi(p)) == (if Lo(r) <= Hi(r) then (Lo(r), Hi(r)) else (Hi(r), Lo(r)))
      && (ExchangedLimits in PrepareReports(base, r) <==> Lo(r) > Hi(r))
  {
    if base.Unknown? {
      CompareExactly(r.min, r.max);
    }
  }

  // ---------- mixed limits ----------

  /** A range of a type referenced before its definition keeps limits of two bases.  The exchange of its
      limits is right, reported and done exactly when the first is the larger, unless one of two things
      holds.  A signed limit comes first: it is at least -1, the other at most 2147483648, and they differ
      by less than 2^31, in either direction.  Or an unsigned limit comes first: it is at most 2147483648,
      the other at least -1, and it is the larger by 2^31 or more. */
  lemma ForwardReferenceExchange(r: Range)
    requires Is32Range(r)
    ensures (ExchangedLimits in PrepareReports(Unknown, r) <==> Lo(r) > Hi(r))
      <==> && !(r.min.base.Integer32? && r.max.base.Unsigned32?
                && Lo(r) >= -1 && Hi(r) != Lo(r) && Hi(r) <= TWO31 && Hi(r) - Lo(r) < TWO31)
           && !(r.min.base.Unsigned32? && r.max.base.Integer32?
                && Hi(r) >= -1 && Lo(r) <= TWO31 && Lo(r) - Hi(r) >= TWO31)
    ensures Prepare(Unknown, r) == if ExchangedLimits in PrepareReports(Unknown, r) then Range(r.max, r.min) else r
  {
    CompareExactly(r.min, r.max);
  }

  /** The comparison makes `a` at most `b`: the numbers are so, or the other way round when the comparison
      has the wrong sign. */
  ghost predicate JudgedAtMost(a: Value, b: Value)
    requires Is32(a) && Is32(b)
  {
    if ComparesRight(a, b) then Number(a) <= Number(b) else Number(a) >= Number(b)
  }

  ghost predicate JudgedAtLeast(a: Value, b: Value)
    requires Is32(a) && Is32(b)
  {
    if ComparesRight(a, b) then Number(a) >= Number(b) else Number(a) <= Number(b)
  }

  /** Where the second of two ranges goes, for limits of any bases.  The place and the order message are
      right exactly when the comparison of the lower limits is. */
  lemma ForwardReferenceOrder(a: Range, p: Range)
    requires Is32Range(a) && Is32Range(p)
    ensures Insert([a], p) == if JudgedAtMost(p.min, a.min) then [p] + [a] else [a] + [p]
    ensures NotAscending in InsertReports([a], p) <==> JudgedAtMost(p.min, a.min)
    ensures (NotAscending in InsertReports([a], p) <==> Lo(p) <= Lo(a)) <==> ComparesRight(p.min, a.min)
  {
    CompareExactly(p.min, a.min);
  }

  /** When the overlap message for the second of two ranges is right, for limits of any bases in order. */
  ghost predicate OverlapJudged(a: Range, p: Range)
    requires Is32Range(a) && Is32Range(p)
  {
    if ComparesRight(p.min, a.min) then
      (if Lo(p) <= Lo(a) then ComparesRight(p.max, a.min) else ComparesRight(p.min, a.max))
    else if Lo(p) > Lo(a) then (ComparesRight(p.max, a.min) <==> Lo(p) <= Hi(a))
    else (ComparesRight(p.min, a.max) <==> Lo(a) <= Hi(p))
  }

  lemma SharedValue(a: Range, p: Range)
    ensures ShareValue(a, p) <==> Lo(a) <= Hi(a) && Lo(p) <= Hi(p) && Lo(p) <= Hi(a) && Lo(a) <= Hi(p)
  {
    if Lo(a) <= Hi(a) && Lo(p) <= Hi(p) && Lo(p) <= Hi(a) && Lo(a) <= Hi(p) {
      var x := if Lo(a) <= Lo(p) then Lo(p) else Lo(a);
      assert Within(a, x) && Within(p, x);
    }
  }

  /** The overlap message for the second of two ranges, for limits of any bases; and, when the limits of both
      are in order, exactly when it tells the truth. */
  lemma ForwardReferenceOverlap(a: Range, p: Range)
    requires Is32Range(a) && Is32Range(p)
    ensures Overlap in InsertReports([a], p)
      <==> if JudgedAtMost(p.min, a.min) then JudgedAtLeast(p.max, a.min) else JudgedAtMost(p.min, a.max)
    ensures Lo(a) <= Hi(a) && Lo(p) <= Hi(p)
      ==> ((Overlap in InsertReports([a], p) <==> ShareValue(a, p)) <==> OverlapJudged(a, p))
    ensures !(Lo(a) <= Hi(a) && Lo(p) <= Hi(p)) ==> !ShareValue(a, p)
  {
    CompareExactly(p.min, a.min);
    CompareExactly(p.max, a.min);
    CompareExactly(p.min, a.max);
    hide CompareValues, ComparesRight;
    SharedValue(a, p);
  }

  function Signed32(bits: Word): Value {
    Value(Integer32, bits)
  }

  function Unsigned(bits: Word): Value {
    Value(Unsigned32, bits)
  }

  /** Single ranges: -1..10 becomes 10..-1 and -0..10 becomes 10..-0, while 2147483647..-1 stays as it is,
      without a message. */
  lemma MixedRangesExchanged()
    ensures var r := Range(Signed32(0xFFFF_FFFF), Unsigned(10));
      Lo(r) == -1 && PrepareReports(Unknown, r) == [ExchangedLimits] && Prepare(Unknown, r) == Range(r.max, r.min)
    ensures var r := Range(Signed32(0), Unsigned(10));
      PrepareReports(Unknown, r) == [ExchangedLimits] && Prepare(Unknown, r) == Range(r.max, r.min)
    ensures var r := Range(Unsigned(0x7FFF_FFFF), Signed32(0xFFFF_FFFF));
      PrepareReports(Unknown, r) == [] && Prepare(Unknown, r) == r
  {
  }

  /** Pairs of ranges: 0..10 followed by -1..-1 stays in this order, without a message; -1..-1 followed by
      2147483647..2147483647 ascends, yet is turned round and reported as not ascending; 0..10 followed by
      -2..-1 is reported as an overlap, though the two share no value. */
  lemma MixedRangesMisplaced()
    ensures var a := Range(Unsigned(0), Unsigned(10)); var p := Range(Signed32(0xFFFF_FFFF), Signed32(0xFFFF_FFFF));
      Lo(p) == -1 && Insert([a], p) == [a] + [p] && InsertReports([a], p) == []
    ensures var a := Range(Signed32(0xFFFF_FFFF), Signed32(0xFFFF_FFFF));
      var p := Range(Unsigned(0x7FFF_FFFF), Unsigned(0x7FFF_FFFF));
      Insert([a], p) == [p] + [a] && InsertReports([a], p) == [NotAscending]
    ensures var a := Range(Unsigned(0), Unsigned(10)); var p := Range(Signed32(0xFFFF_FFFE), Signed32(0xFFFF_FFFF));
      Lo(p) == -2 && Hi(p) == -1 && !ShareValue(a, p) && Overlap in InsertReports([a], p)
  {
  }

  // ---------- limits and base types ----------

  /** The numbers of a base type; sizes are at most 65535. */
  ghost predicate InBase(base: BaseType, x: int) {
    match base
    case Integer32 => -TWO31 <= x < TWO31
    case Unsigned32 => 0 <= x < TWO32
    case OctetString => 0 <= x <= 65535
    case Unknown => true
  }

  /** A limit is reported exactly when its number is not one of the base type.  (A signed limit comes
      from a number written with a minus sign, so as a size it can only be too small.) */
  lemma LimitReportedExactly(base: BaseType, v: Value)
    requires Is32(v) && (base.OctetString? && v.base.Integer32? ==> Number(v) <= 0)
    ensures LimitReported(base, v) <==> !InBase(base, Number(v))
  {
  }

  /** The scanner makes a signed limit only of a number written with a minus sign. */
  ghost predicate Scanned(r: Range) {
    (r.min.base.Integer32? ==> Lo(r) <= 0) && (r.max.base.Integer32? ==> Hi(r) <= 0)
  }

  /** The number that a limit stands for in the type. */
  ghost function Read(base: BaseType, v: Value): int {
    if base.Unknown? then Number(v) else Number(Value(ListBase(base), v.bits))
  }

  /** What is said about the limits of a range: either is outside the base type; the first is the larger. */
  ghost function LimitMessages(base: BaseType, r: Range): seq<Report> {
    When(!InBase(base, Lo(r)), OutOfBasetype) + When(!InBase(base, Hi(r)), OutOfBasetype)
    + When(Read(base, r.min) > Read(base, r.max), ExchangedLimits)
  }

  /** The messages for the limits of one range, one by one. */
  lemma PrepareReportsExactly(base: BaseType, r: Range)
    requires Is32Range(r) && (base.Unknown? ==> ComparesRight(r.min, r.max))
    requires base.OctetString? ==> Scanned(r)
    ensures PrepareReports(base, r) == LimitMessages(base, r)
  {
    if base.Unknown? {
      CompareExactly(r.min, r.max);
    } else {
      LimitReportedExactly(base, r.min);
      LimitReportedExactly(base, r.max);
    }
  }

  // ---------- the sort ----------

  /** The inserted range goes first, or last, or the list ends where it would have gone. */
  lemma InsertShape(V: Limits, list: seq<Range>, p: Range) returns (k: nat)
    requires Comparable(V, list) && Comparable(V, [p]) && Sorted(list)
    ensures k <= |list|
    ensures k == 0 ==> Insert(list, p) == [p] + list
    ensures 0 < k < |list| ==> Insert(list, p) == list[..k]
    ensures 0 < k == |list| ==> Insert(list, p) == list + [p]
    ensures forall i | 0 <= i < k :: Lo(list[i]) < Lo(p)
    ensures forall i | k <= i < |list| :: Lo(p) <= Lo(list[i])
  {
    assert [p][0] == p;
    if list == [] || CompareValues(p.min, list[0].min) <= 0 {
      k := 0;
    } else {
      k := FindAfter(list, p, 0) + 1;
    }
  }

  lemma InsertSorted(V: Limits, list: seq<Range>, p: Range)
    requires Comparable(V, list) && Comparable(V, [p]) && Sorted(list)
    ensures Comparable(V, Insert(list, p)) && Sorted(Insert(list, p))
  {
    var k := InsertShape(V, list, p);
    hide CompareValues, FindAfter, Number;
    assert [p][0] == p;
  }

  lemma InsertElements(V: Limits, list: seq<Range>, p: Range)
    requires Comparable(V, list) && Comparable(V, [p]) && Sorted(list)
    ensures multiset(Insert(list, p)) <= multiset(list) + multiset{p}
  {
    var k := InsertShape(V, list, p);
    assert list == list[..k] + list[k..];
  }

  /** Nothing is cut off exactly when the new range starts at or below all others, or above all. */
  lemma InsertKeepsAll(V: Limits, list: seq<Range>, p: Range)
    requires Comparable(V, list) && Comparable(V, [p]) && Sorted(list)
    ensures |Insert(list, p)| <= |list| + 1
    ensures |Insert(list, p)| == |list| + 1 <==> BelowAll(p, list) || AboveAll(p, list)
  {
    var k := InsertShape(V, list, p);
    if 0 < k < |list| {
      assert Lo(list[0]) < Lo(p) <= Lo(list[k]);
    }
  }

  lemma ComparableSplit(V: Limits, ds: seq<Range>)
    requires Comparable(V, ds) && ds != []
    ensures var n := |ds| - 1; Comparable(V, ds[..n]) && Comparable(V, [ds[n]])
  {
  }

  lemma {:induction false} SortSorted(V: Limits, ds: seq<Range>)
    requires Comparable(V, ds)
    ensures Comparable(V, SortAll(ds)) && Sorted(SortAll(ds))
  {
    if ds != [] {
      hide Comparable, Sorted, Insert;
      var n := |ds| - 1;
      ComparableSplit(V, ds);
      SortSorted(V, ds[..n]);
      InsertSorted(V, SortAll(ds[..n]), ds[n]);
    }
  }

  lemma {:induction false} SortElements(V: Limits, ds: seq<Range>)
    requires Comparable(V, ds)
    ensures multiset(SortAll(ds)) <= multiset(ds)
  {
    if ds != [] {
      hide Comparable, Sorted, Insert;
      var n := |ds| - 1;
      ComparableSplit(V, ds);
      SortElements(V, ds[..n]);
      SortSorted(V, ds[..n]);
      InsertElements(V, SortAll(ds[..n]), ds[n]);
      LastElement(ds);
    }
  }

  lemma SameBounds(a: seq<Range>, b: seq<Range>, p: Range)
    requires multiset(a) <= multiset(b) && |a| == |b|
    ensures BelowAll(p, a) <==> BelowAll(p, b)
    ensures AboveAll(p, a) <==> AboveAll(p, b)
  {
    SubMultisetSize(a, b);
    SameElements(a, b);
  }

  lemma NoMiddleStep(ds: seq<Range>)
    requires ds != []
    ensures var n := |ds| - 1;
      NoMiddle(ds) <==> NoMiddle(ds[..n]) && (BelowAll(ds[n], ds[..n]) || AboveAll(ds[n], ds[..n]))
  {
    hide BelowAll, AboveAll;
    var n := |ds| - 1;
    assert forall j | 0 <= j < n :: ds[..n][..j] == ds[..j] && ds[..n][j] == ds[j];
  }

  lemma {:induction false} SortSize(V: Limits, ds: seq<Range>)
    requires Comparable(V, ds)
    ensures |SortAll(ds)| <= |ds|
    ensures |SortAll(ds)| == |ds| <==> NoMiddle(ds)
  {
    if ds != [] {
      hide Comparable, Sorted, Insert, NoMiddle, BelowAll, AboveAll;
      var n := |ds| - 1;
      ComparableSplit(V, ds);
      SortSize(V, ds[..n]);
      SortSorted(V, ds[..n]);
      InsertKeepsAll(V, SortAll(ds[..n]), ds[n]);
      NoMiddleStep(ds);
      if |SortAll(ds[..n])| == n {
        SortElements(V, ds[..n]);
        SameBounds(SortAll(ds[..n]), ds[..n], ds[n]);
      }
    }
  }

  /** No range is lost exactly when none is declared between two others. */
  lemma {:induction false} SortKeepsAll(V: Limits, ds: seq<Range>)
    requires Comparable(V, ds)
    ensures multiset(SortAll(ds)) == multiset(ds) <==> NoMiddle(ds)
  {
    hide Comparable, NoMiddle, SortAll;
    SortElements(V, ds);
    SortSize(V, ds);
    SubMultisetSize(SortAll(ds), ds);
  }

  // ---------- overlap ----------

  /** A report of an overlap at an insertion is right. */
  lemma InsertOverlapSound(V: Limits, list: seq<Range>, p: Range) returns (i: nat)
    requires Comparable(V, list) && Comparable(V, [p])
    requires Overlap in InsertReports(list, p)
    ensures i < |list| && ShareValue(list[i], p)
  {
    assert [p][0] == p;
    if CompareValues(p.min, list[0].min) <= 0 {
      i := 0;
      assert Within(list[0], Lo(list[0])) && Within(p, Lo(list[0]));
    } else {
      var k := FindAfter(list, p, 0);
      if CompareValues(p.min, list[k].max) <= 0 {
        i := k;
        assert Within(list[k], Lo(p)) && Within(p, Lo(p));
      } else {
        i := k + 1;
        assert Within(list[k + 1], Lo(list[k + 1])) && Within(p, Lo(list[k + 1]));
      }
    }
  }

  /** Looking only at the neighbours is enough: without a report the new range meets no range of
      a list of separate ranges. */
  lemma InsertOverlapComplete(V: Limits, list: seq<Range>, p: Range)
    requires Comparable(V, list) && Comparable(V, [p]) && Separate(list)
    requires Overlap !in InsertReports(list, p)
    ensures forall i | 0 <= i < |list| :: Hi(list[i]) < Lo(p) || Hi(p) < Lo(list[i])
    ensures forall i | 0 <= i < |list| :: !ShareValue(list[i], p)
  {
    assert [p][0] == p;
    if list != [] {
      if CompareValues(p.min, list[0].min) <= 0 {
        assert Hi(p) < Lo(list[0]);
      } else {
        var k := FindAfter(list, p, 0);
        assert Hi(list[k]) < Lo(p);
        assert k + 1 < |list| ==> Hi(p) < Lo(list[k + 1]);
      }
    }
  }

  /** What is said about a range in front of which `k` of the list start: it shares a value with a neighbour, the
      last of these or the next one; it does not go last. */
  ghost function PlaceMessages(list: seq<Range>, p: Range, k: nat): seq<Report>
    requires k <= |list|
  {
    When((0 < k && ShareValue(list[k - 1], p)) || (k < |list| && ShareValue(list[k], p)), Overlap)
    + When(k < |list|, NotAscending)
  }

  /** The messages of an insertion, one by one. */
  lemma InsertReportsExactly(V: Limits, list: seq<Range>, p: Range) returns (k: nat)
    requires Comparable(V, list) && Comparable(V, [p]) && Sorted(list)
    ensures k <= |list|
    ensures forall i | 0 <= i < k :: Lo(list[i]) < Lo(p)
    ensures forall i | k <= i < |list| :: Lo(p) <= Lo(list[i])
    ensures InsertReports(list, p) == PlaceMessages(list, p, k)
  {
    hide ShareValue;
    assert [p][0] == p;
    k := if list == [] || CompareValues(p.min, list[0].min) <= 0 then 0 else FindAfter(list, p, 0) + 1;
    if 0 < k {
      SharedValue(list[k - 1], p);
    }
    if k < |list| {
      SharedValue(list[k], p);
    }
  }

  lemma InsertSeparate(V: Limits, list: seq<Range>, p: Range)
    requires Comparable(V, list) && Comparable(V, [p]) && Separate(list)
    requires forall i | 0 <= i < |list| :: Hi(list[i]) < Lo(p) || Hi(p) < Lo(list[i])
    ensures Separate(Insert(list, p))
  {
  }

  lemma {:induction false} SilentSortSeparate(V: Limits, ds: seq<Range>)
    requires Comparable(V, ds) && Overlap !in SortReports(ds)
    ensures Separate(SortAll(ds))
  {
    if ds != [] {
      hide Comparable, Insert, InsertReports;
      var n := |ds| - 1;
      ComparableSplit(V, ds);
      SilentSortSeparate(V, ds[..n]);
      SortSorted(V, ds[..n]);
      InsertOverlapComplete(V, SortAll(ds[..n]), ds[n]);
      InsertSeparate(V, SortAll(ds[..n]), ds[n]);
    }
  }

  /** An overlap is only reported when two declared ranges share a value. */
  lemma {:induction false} OverlapSound(V: Limits, ds: seq<Range>)
    requires Comparable(V, ds) && Overlap in SortReports(ds)
    ensures SomeOverlap(ds)
  {
    hide Comparable, Insert, InsertReports, ShareValue;
    var n := |ds| - 1;
    ComparableSplit(V, ds);
    if Overlap in SortReports(ds[..n]) {
      OverlapSound(V, ds[..n]);
      var i, j :| 0 <= i < j < n && ShareValue(ds[..n][i], ds[..n][j]);
      assert ShareValue(ds[i], ds[j]);
    } else {
      SortSorted(V, ds[..n]);
      SortElements(V, ds[..n]);
      var k := InsertOverlapSound(V, SortAll(ds[..n]), ds[n]);
      var i := IndexIn(SortAll(ds[..n]), ds[..n], k);
      assert ShareValue(ds[i], ds[n]);
    }
  }

  lemma SilentStep(ds: seq<Range>, list: seq<Range>)
    requires ds != []
    requires var n := |ds| - 1; !SomeOverlap(ds[..n]) && multiset(ds[..n]) <= multiset(list)
    requires forall i | 0 <= i < |list| :: !ShareValue(list[i], ds[|ds| - 1])
    ensures !SomeOverlap(ds)
  {
    hide ShareValue;
    var n := |ds| - 1;
    forall i, j | 0 <= i < j < |ds|
      ensures !ShareValue(ds[i], ds[j])
    {
      if j < n {
        assert !ShareValue(ds[..n][i], ds[..n][j]);
      } else {
        var k := IndexIn(ds[..n], list, i);
      }
    }
  }

  lemma {:induction false} SilentNoOverlap(V: Limits, ds: seq<Range>)
    requires Comparable(V, ds) && NoMiddle(ds) && Overlap !in SortReports(ds)
    ensures !SomeOverlap(ds)
  {
    if ds != [] {
      hide Comparable, Insert, InsertReports, NoMiddle, ShareValue, Separate, SomeOverlap;
      var n := |ds| - 1;
      ComparableSplit(V, ds);
      NoMiddleStep(ds);
      SilentNoOverlap(V, ds[..n]);
      SilentSortSeparate(V, ds[..n]);
      SortSorted(V, ds[..n]);
      SortKeepsAll(V, ds[..n]);
      InsertOverlapComplete(V, SortAll(ds[..n]), ds[n]);
      SilentStep(ds, SortAll(ds[..n]));
    }
  }

  /** When no range is inserted between two others, an overlap is reported exactly when two
      declared ranges share a value. */
  lemma {:induction false} OverlapExact(V: Limits, ds: seq<Range>)
    requires Comparable(V, ds) && NoMiddle(ds)
    ensures Overlap in SortReports(ds) <==> SomeOverlap(ds)
  {
    hide Comparable, NoMiddle, SortReports, SomeOverlap;
    if Overlap in SortReports(ds) {
      OverlapSound(V, ds);
    } else {
      SilentNoOverlap(V, ds);
    }
  }

  ghost predicate Meets(list: seq<Range>, p: Range) {
    exists k :: 0 <= k < |list| && ShareValue(list[k], p)
  }

  /** Some range shares a value with one that is still in the list when it is inserted. */
  ghost predicate MeetsKept(ds: seq<Range>) {
    exists n :: 0 <= n < |ds| && Meets(SortAll(ds[..n]), ds[n])
  }

  lemma MeetsKeptStep(ds: seq<Range>)
    requires ds != []
    ensures var n := |ds| - 1; MeetsKept(ds) <==> MeetsKept(ds[..n]) || Meets(SortAll(ds[..n]), ds[n])
  {
    hide Meets, SortAll;
    var n := |ds| - 1;
    assert forall i | 0 <= i < n :: ds[..n][..i] == ds[..i] && ds[..n][i] == ds[i];
  }

  /** Cuts or not: an overlap is reported exactly when a range shares a value with one that has not
      been cut off before. */
  lemma {:induction false} OverlapReportedExactly(V: Limits, ds: seq<Range>)
    requires Comparable(V, ds)
    ensures Overlap in SortReports(ds) <==> MeetsKept(ds)
  {
    if ds != [] {
      hide Comparable, Insert, InsertReports, ShareValue, Separate, MeetsKept, SortAll;
      var n := |ds| - 1;
      ComparableSplit(V, ds);
      MeetsKeptStep(ds);
      OverlapReportedExactly(V, ds[..n]);
      if Overlap !in SortReports(ds[..n]) {
        SilentSortSeparate(V, ds[..n]);
        SortSorted(V, ds[..n]);
        if Overlap in InsertReports(SortAll(ds[..n]), ds[n]) {
          var k := InsertOverlapSound(V, SortAll(ds[..n]), ds[n]);
        } else {
          InsertOverlapComplete(V, SortAll(ds[..n]), ds[n]);
        }
      }
    }
  }

  lemma {:induction false} SortSnoc(a: seq<Range>, p: Range)
    ensures SortAll(a + [p]) == Insert(SortAll(a), p)
    ensures SortReports(a + [p]) == SortReports(a) + InsertReports(SortAll(a), p)
  {
  }

  function Point(n: Word): Range {
    Range(Value(Unsigned32, n), Value(Unsigned32, n))
  }

  lemma InsertPoints(a: Word, b: Word)
    ensures Insert([], Point(a)) == [Point(a)] && InsertReports([], Point(a)) == []
    ensures a < b ==>
      Insert([Point(a)], Point(b)) == [Point(a)] + [Point(b)] && InsertReports([Point(a)], Point(b)) == []
  {
  }

  lemma InsertBetween(a: Word, b: Word, c: Word)
    requires a < b < c
    ensures Insert([Point(a)] + [Point(c)], Point(b)) == [Point(a)]
    ensures InsertReports([Point(a)] + [Point(c)], Point(b)) == [NotAscending]
  {
  }

  lemma CutDropsPoint()
    ensures var ds := [Point(1)] + [Point(10)] + [Point(5)];
      SortAll(ds) == [Point(1)] && SortReports(ds) == [NotAscending]
  {
    assert SortAll([]) == [] && SortReports([]) == [];
    hide SortAll, SortReports, Insert, InsertReports;
    SortSnoc([], Point(1));
    SortSnoc([Point(1)], Point(10));
    SortSnoc([Point(1)] + [Point(10)], Point(5));
    assert [] + [Point(1)] == [Point(1)];
    InsertPoints(1, 10);
    InsertBetween(1, 5, 10);
  }

  /** With a range inserted between two others values can be lost: 10 is declared and then cut off. */
  lemma CutLosesCover()
    ensures var ds := [Point(1)] + [Point(10)] + [Point(5)];
      Comparable(Of(Unsigned32), ds) && Covers(ds, 10) && !Covers(SortAll(ds), 10)
  {
    CutDropsPoint();
    assert Within(([Point(1)] + [Point(10)] + [Point(5)])[1], 10);
  }

  /** ... and an overlap with the range that was cut off goes unreported. */
  lemma CutHidesOverlap()
    ensures var ds := [Point(1)] + [Point(10)] + [Point(5)] + [Point(10)];
      Comparable(Of(Unsigned32), ds) && SomeOverlap(ds) && Overlap !in SortReports(ds)
  {
    hide SortAll, SortReports, Insert, InsertReports;
    var c := [Point(1)] + [Point(10)] + [Point(5)];
    CutDropsPoint();
    SortSnoc(c, Point(10));
    InsertPoints(1, 10);
    var ds := c + [Point(10)];
    assert Within(ds[1], 10) && Within(ds[3], 10);
    assert ShareValue(ds[1], ds[3]);
  }

  // ---------- order ----------

  lemma AscendingStep(ds: seq<Range>)
    requires ds != []
    ensures var n := |ds| - 1; StrictlyAscending(ds) <==> StrictlyAscending(ds[..n]) && AboveAll(ds[n], ds[..n])
    ensures ds[..|ds| - 1] + [ds[|ds| - 1]] == ds
  {
  }

  lemma AppendExact(V: Limits, list: seq<Range>, p: Range)
    requires Comparable(V, list) && Comparable(V, [p]) && StrictlyAscending(list)
    ensures NotAscending in InsertReports(list, p) <==> !AboveAll(p, list)
    ensures AboveAll(p, list) ==> Insert(list, p) == list + [p]
  {
    assert [p][0] == p;
    if list != [] && CompareValues(p.min, list[0].min) > 0 {
      var k := FindAfter(list, p, 0);
      if k + 1 < |list| {
        assert Lo(p) <= Lo(list[k + 1]);
      }
    }
  }

  lemma {:induction false} AscendingIsSorted(V: Limits, ds: seq<Range>)
    requires Comparable(V, ds) && StrictlyAscending(ds)
    ensures SortAll(ds) == ds
  {
    if ds != [] {
      hide Comparable, Insert, StrictlyAscending, AboveAll;
      var n := |ds| - 1;
      ComparableSplit(V, ds);
      AscendingStep(ds);
      AscendingIsSorted(V, ds[..n]);
      AppendExact(V, ds[..n], ds[n]);
    }
  }

  /** The order report is raised exactly when the lower bounds do not strictly ascend. */
  lemma {:induction false} AscendingExact(V: Limits, ds: seq<Range>)
    requires Comparable(V, ds)
    ensures NotAscending in SortReports(ds) <==> !StrictlyAscending(ds)
  {
    if ds != [] {
      hide Comparable, Insert, InsertReports, StrictlyAscending, AboveAll, SortAll;
      var n := |ds| - 1;
      ComparableSplit(V, ds);
      AscendingExact(V, ds[..n]);
      AscendingStep(ds);
      if StrictlyAscending(ds[..n]) {
        AscendingIsSorted(V, ds[..n]);
        AppendExact(V, ds[..n], ds[n]);
      }
    }
  }
}
