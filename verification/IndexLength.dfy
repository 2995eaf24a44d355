/** The longest instance identifier of a conceptual row, as `smiCheckIndex` computes it, against the
    encoding of index values in section 7.7 of RFC 2578. */
module IndexLength {

  datatype SizeRange = SizeRange(min: int, max: int)

  datatype Kind = Integer | OctetString | ObjectId | Unsigned | Enumeration | BitString | OtherBase | Untyped

  /** An index element.  `chain` holds the range lists of its type and of the types it is derived
      from; `implied` is the flag of the column itself, not of the row. */
  datatype Element = Element(kind: Kind, chain: seq<seq<SizeRange>>, implied: bool)

  // ---------- what the function computes ----------

  /** The ranges of the nearest restricted type. */
  function Nearest(chain: seq<seq<SizeRange>>): seq<SizeRange> {
    if chain == [] then [] else if chain[0] != [] then chain[0] else Nearest(chain[1..])
  }

  function MinSoFar(rs: seq<SizeRange>, n: nat): int
    requires n <= |rs|
  {
    if n == 0 then 65535
    else if rs[n - 1].min < MinSoFar(rs, n - 1) then rs[n - 1].min else MinSoFar(rs, n - 1)
  }

  function MaxSoFar(rs: seq<SizeRange>, n: nat): int
    requires n <= |rs|
  {
    if n == 0 then -1
    else if rs[n - 1].max > MaxSoFar(rs, n - 1) then rs[n - 1].max else MaxSoFar(rs, n - 1)
  }

  function SizeBounds(rs: seq<SizeRange>): (int, int) {
    if rs == [] then (0, 65535)
    else
      var min, max := MinSoFar(rs, |rs|), MaxSoFar(rs, |rs|);
      (if min == 65535 then 0 else min, if max < 0 then 65535 else max)
  }

  /** What one element adds to the length. */
  function ElementLength(e: Element, rowImplied: bool, last: bool): int {
    match e.kind
    case Integer => 1
    case Unsigned => 1
    case Enumeration => 1
    case OctetString =>
      var (min, max) := SizeBounds(Nearest(e.chain));
      max + (if min != max && !(rowImplied && last) then 1 else 0)
    case ObjectId => 128 + (if !e.implied then 1 else 0)
    case BitString => 0
    case OtherBase => 0
    case Untyped => 0
  }

  function LengthOfFirst(es: seq<Element>, rowImplied: bool, n: nat): int
    requires n <= |es|
  {
    if n == 0 then 0
    else LengthOfFirst(es, rowImplied, n - 1) + ElementLength(es[n - 1], rowImplied, n == |es|)
  }

  // ---------- the loops ----------

  method FindNearest(chain: seq<seq<SizeRange>>) returns (rs: seq<SizeRange>)
    ensures rs == Nearest(chain)
  {
    var k := 0;
    while k < |chain| && chain[k] == []
      invariant k <= |chain| && Nearest(chain) == Nearest(chain[k..])
    {
      k := k + 1;
    }
    rs := if k < |chain| then chain[k] else [];
  }

  method FindBounds(rs: seq<SizeRange>) returns (min: int, max: int)
    ensures (min, max) == SizeBounds(rs)
  {
    if rs == [] {
      return 0, 65535;
    }
    min, max := 65535, -1;
    var k := 0;
    while k < |rs|
      invariant k <= |rs| && min == MinSoFar(rs, k) && max == MaxSoFar(rs, k)
    {
      if rs[k].min < min {
        min := rs[k].min;
      }
      if rs[k].max > max {
        max := rs[k].max;
      }
      k := k + 1;
    }
    if min == 65535 {
      min := 0;
    }
    if max < 0 {
      max := 65535;
    }
  }

  /** The loop over the index elements, and whether the row is reported as too large. */
  method CheckIndex(es: seq<Element>, rowImplied: bool, oidlen: nat) returns (len: int, tooLarge: bool)
    ensures len == LengthOfFirst(es, rowImplied, |es|)
    ensures tooLarge <==> oidlen + 1 + len > 128
  {
    len := 0;
    var k := 0;
    while k < |es|
      invariant k <= |es| && len == LengthOfFirst(es, rowImplied, k)
    {
      match es[k].kind {
        case Integer => len := len + 1;
        case OctetString =>
          var rs := FindNearest(es[k].chain);
          var min, max := FindBounds(rs);
          len := len + max;
          if min != max {
            if !(rowImplied && k + 1 == |es|) {
              len := len + 1;
            }
          }
        case ObjectId =>
          len := len + 128;
          if !es[k].implied {
            len := len + 1;
          }
        case Unsigned => len := len + 1;
        case OtherBase =>
        case BitString =>
        case Enumeration => len := len + 1;
        case Untyped =>
      }
      k := k + 1;
    }
    tooLarge := oidlen + 1 + len > 128;
  }

  // ---------- section 7.7 of RFC 2578 ----------

  datatype Value = Number(n: nat) | Octets(s: seq<nat>) | Name(s: seq<nat>)

  /** The restriction an element has, its own or inherited: that of the first type in the chain with any. */
  ghost predicate Inherits(chain: seq<seq<SizeRange>>, k: nat) {
    k < |chain| && chain[k] != [] && forall j | 0 <= j < k :: chain[j] == []
  }

  ghost predicate ProperSizes(rs: seq<SizeRange>) {
    forall i | 0 <= i < |rs| :: 0 <= rs[i].min <= rs[i].max <= 65535
  }

  /** The element has a base type the function knows the length of, and sizes as the SMI allows them. */
  ghost predicate Known(e: Element) {
    && !e.kind.BitString? && !e.kind.OtherBase? && !e.kind.Untyped?
    && forall k: nat | Inherits(e.chain, k) :: ProperSizes(e.chain[k])
  }

  ghost predicate InSizes(rs: seq<SizeRange>, n: nat) {
    exists i :: 0 <= i < |rs| && rs[i].min <= n <= rs[i].max
  }

  /** A size that the restriction in force allows; without any, all up to 65535. */
  ghost predicate SizeAllowed(chain: seq<seq<SizeRange>>, n: nat) {
    if exists k: nat :: Inherits(chain, k) then exists k: nat :: Inherits(chain, k) && InSizes(chain[k], n)
    else n <= 65535
  }

  /** A value that an instance of the element can have. */
  ghost predicate Conforms(e: Element, v: Value) {
    match e.kind
    case OctetString => v.Octets? && SizeAllowed(e.chain, |v.s|)
    case ObjectId => v.Name? && |v.s| <= 128
    case _ => v.Number?
  }

  /** All values of the element have one length. */
  ghost predicate FixedSize(e: Element) {
    exists k: nat :: SizeAllowed(e.chain, k)
      && forall n: nat :: SizeAllowed(e.chain, n) ==> n == k
  }

  /** The sub-identifiers of one value: a string of variable length and a name are preceded by their
      length unless they are the last element of an IMPLIED index. */
  ghost function Encode(e: Element, v: Value, rowImplied: bool, last: bool): seq<nat> {
    match v
    case Number(n) => [n]
    case Octets(s) => if FixedSize(e) || (rowImplied && last) then s else [|s|] + s
    case Name(s) => if rowImplied && last then s else [|s|] + s
  }

  /** The instance identifier part for the first `n` elements. */
  ghost function EncodeFirst(es: seq<Element>, vs: seq<Value>, rowImplied: bool, n: nat): seq<nat>
    requires n <= |es| == |vs|
  {
    if n == 0 then []
    else EncodeFirst(es, vs, rowImplied, n - 1) + Encode(es[n - 1], vs[n - 1], rowImplied, n == |es|)
  }

  ghost predicate AllConform(es: seq<Element>, vs: seq<Value>) {
    |vs| == |es| && forall i | 0 <= i < |es| :: Conforms(es[i], vs[i])
  }

  /** The row's identifier, the column's sub-identifier, and the index. */
  ghost function Instance(row: seq<nat>, column: nat, es: seq<Element>, vs: seq<Value>, rowImplied: bool): seq<nat>
    requires |es| == |vs|
  {
    row + [column] + EncodeFirst(es, vs, rowImplied, |es|)
  }

  // ---------- sizes ----------

  /** The least lower and the largest upper limit found in some size ranges of any limits, as long as they lie
      below 65535 and above -1; otherwise the default of 0 or of 65535. */
  ghost predicate Bounds(rs: seq<SizeRange>, n: nat, min: int, max: int)
    requires n <= |rs|
  {
    && min <= 65535 && max >= -1
    && (forall i | 0 <= i < n :: min <= rs[i].min && rs[i].max <= max)
    && (min < 65535 ==> exists i :: 0 <= i < n && rs[i].min == min)
    && (max > -1 ==> exists i :: 0 <= i < n && rs[i].max == max)
  }

  lemma {:induction false} SoFarFound(rs: seq<SizeRange>, n: nat)
    requires n <= |rs|
    ensures Bounds(rs, n, MinSoFar(rs, n), MaxSoFar(rs, n))
  {
    if n > 0 {
      SoFarFound(rs, n - 1);
    }
  }

  /** The bounds for ranges of any limits, possible sizes or not. */
  lemma BoundsFound(rs: seq<SizeRange>)
    requires rs != []
    ensures var (min, max) := SizeBounds(rs);
      && (if forall i | 0 <= i < |rs| :: rs[i].min >= 65535 then min == 0
          else (exists i :: 0 <= i < |rs| && rs[i].min == min) && forall i | 0 <= i < |rs| :: min <= rs[i].min)
      && (if forall i | 0 <= i < |rs| :: rs[i].max < 0 then max == 65535
          else (exists i :: 0 <= i < |rs| && rs[i].max == max) && forall i | 0 <= i < |rs| :: rs[i].max <= max)
  {
    SoFarFound(rs, |rs|);
  }

  lemma {:induction false} SoFarBounds(rs: seq<SizeRange>, n: nat)
    requires n <= |rs| && forall i | 0 <= i < |rs| :: 0 <= rs[i].min <= rs[i].max <= 65535
    ensures forall i | 0 <= i < n :: MinSoFar(rs, n) <= rs[i].min && rs[i].max <= MaxSoFar(rs, n)
    ensures n > 0 ==> exists i :: 0 <= i < n && rs[i].min == MinSoFar(rs, n)
    ensures n > 0 ==> exists i :: 0 <= i < n && rs[i].max == MaxSoFar(rs, n)
    ensures MinSoFar(rs, n) <= 65535
  {
    SoFarFound(rs, n);
    assert n > 0 ==> MinSoFar(rs, n) <= rs[0].min <= rs[0].max <= MaxSoFar(rs, n);
  }

  ghost predicate FullSizes(rs: seq<SizeRange>) {
    forall i | 0 <= i < |rs| :: rs[i].min == 65535
  }

  /** The one allowed size is 65535, which the function takes for "no lower bound found". */
  ghost predicate OnlyFullSize(e: Element) {
    exists k: nat :: Inherits(e.chain, k) && FullSizes(e.chain[k])
  }

  lemma InheritsStep(chain: seq<seq<SizeRange>>, k: nat)
    requires chain != []
    ensures Inherits(chain, k) <==> if k == 0 then chain[0] != [] else chain[0] == [] && Inherits(chain[1..], k - 1)
    ensures Inherits(chain, k) && k > 0 ==> chain[k] == chain[1..][k - 1]
  {
    if k > 0 && chain[0] == [] && Inherits(chain[1..], k - 1) {
      assert forall j | 0 < j < k :: chain[j] == chain[1..][j - 1];
    }
  }

  /** The search finds the restriction in force, and nothing exactly when there is none. */
  lemma {:induction false} NearestInherits(chain: seq<seq<SizeRange>>)
    ensures (exists k: nat :: Inherits(chain, k)) <==> Nearest(chain) != []
    ensures forall k: nat | Inherits(chain, k) :: Nearest(chain) == chain[k]
  {
    if chain == [] {
      assert forall k: nat :: !Inherits(chain, k);
    } else {
      hide Inherits;
      NearestInherits(chain[1..]);
      forall k: nat
        ensures Inherits(chain, k) ==> Nearest(chain) == chain[k]
      {
        InheritsStep(chain, k);
      }
      InheritsStep(chain, 0);
      if k: nat :| Inherits(chain[1..], k) {
        InheritsStep(chain, k + 1);
      }
    }
  }

  lemma NearestSizes(e: Element)
    requires Known(e)
    ensures ProperSizes(Nearest(e.chain))
    ensures forall n: nat ::
        SizeAllowed(e.chain, n) <==> if Nearest(e.chain) == [] then n <= 65535 else InSizes(Nearest(e.chain), n)
    ensures OnlyFullSize(e) <==> Nearest(e.chain) != [] && FullSizes(Nearest(e.chain))
  {
    hide Inherits, InSizes, FullSizes, Nearest;
    NearestInherits(e.chain);
  }

  /** The largest allowed size is the computed one, and the sizes are fixed exactly when the computed
      bounds agree or the one size is 65535. */
  lemma BoundsAreSizes(e: Element)
    requires Known(e) && e.kind.OctetString?
    ensures var (min, max) := SizeBounds(Nearest(e.chain));
      && 0 <= max && SizeAllowed(e.chain, max)
      && (forall n: nat :: SizeAllowed(e.chain, n) ==> n <= max)
      && (FixedSize(e) <==> min == max || OnlyFullSize(e))
      && (OnlyFullSize(e) ==> min != max)
  {
    hide Inherits, Nearest, Known, SizeAllowed, OnlyFullSize;
    NearestSizes(e);
    var rs := Nearest(e.chain);
    if rs == [] {
      assert SizeAllowed(e.chain, 0) && SizeAllowed(e.chain, 1);
    } else {
      SoFarBounds(rs, |rs|);
      var min, max := MinSoFar(rs, |rs|), MaxSoFar(rs, |rs|);
      assert InSizes(rs, min) && InSizes(rs, max);
    }
  }

  /** The computed length of an element can be one too long: a size fixed at 65535, or an IMPLIED
      object identifier. */
  ghost predicate OneTooLong(e: Element, rowImplied: bool, last: bool) {
    if rowImplied && last then e.kind.ObjectId? && !e.implied else e.kind.OctetString? && OnlyFullSize(e)
  }

  /** ... or one too short: an object identifier preceded by its length, when the column itself carries
      the flag, because it has an INDEX clause of its own with IMPLIED. */
  ghost predicate OneTooShort(e: Element, rowImplied: bool, last: bool) {
    e.kind.ObjectId? && e.implied && !(rowImplied && last)
  }

  /** By how much the computed length of an element exceeds that of its longest encoding. */
  ghost function Excess(e: Element, rowImplied: bool, last: bool): int {
    if OneTooLong(e, rowImplied, last) then 1 else if OneTooShort(e, rowImplied, last) then -1 else 0
  }

  lemma ElementBound(e: Element, v: Value, rowImplied: bool, last: bool)
    requires Known(e) && Conforms(e, v)
    ensures |Encode(e, v, rowImplied, last)|
      <= ElementLength(e, rowImplied, last) - Excess(e, rowImplied, last)
  {
    if e.kind.OctetString? {
      BoundsAreSizes(e);
    }
  }

  /** A value whose encoding is as long as any. */
  ghost function Longest(e: Element): Value
    requires Known(e)
  {
    match e.kind
    case OctetString =>
      BoundsAreSizes(e);
      Octets(seq(SizeBounds(Nearest(e.chain)).1, _ => 0))
    case ObjectId => Name(seq(128, _ => 0))
    case _ => Number(0)
  }

  lemma LongestAttains(e: Element, rowImplied: bool, last: bool)
    requires Known(e)
    ensures Conforms(e, Longest(e))
    ensures |Encode(e, Longest(e), rowImplied, last)|
      == ElementLength(e, rowImplied, last) - Excess(e, rowImplied, last)
  {
    if e.kind.OctetString? {
      BoundsAreSizes(e);
    }
  }

  // ---------- main results ----------

  ghost function ExcessOfFirst(es: seq<Element>, rowImplied: bool, n: nat): int
    requires n <= |es|
  {
    if n == 0 then 0 else ExcessOfFirst(es, rowImplied, n - 1) + Excess(es[n - 1], rowImplied, n == |es|)
  }

  lemma {:induction false} FirstBound(es: seq<Element>, vs: seq<Value>, rowImplied: bool, n: nat)
    requires n <= |es| && (forall i | 0 <= i < |es| :: Known(es[i])) && AllConform(es, vs)
    ensures |EncodeFirst(es, vs, rowImplied, n)| <= LengthOfFirst(es, rowImplied, n) - ExcessOfFirst(es, rowImplied, n)
  {
    if n > 0 {
      hide Known, Conforms, Excess, Encode, ElementLength;
      FirstBound(es, vs, rowImplied, n - 1);
      ElementBound(es[n - 1], vs[n - 1], rowImplied, n == |es|);
    }
  }

  ghost function AllLongest(es: seq<Element>): (vs: seq<Value>)
    requires forall i | 0 <= i < |es| :: Known(es[i])
    ensures |vs| == |es| && forall i | 0 <= i < |es| :: vs[i] == Longest(es[i])
  {
    seq(|es|, i requires 0 <= i < |es| => Longest(es[i]))
  }

  lemma {:induction false} FirstAttained(es: seq<Element>, rowImplied: bool, n: nat)
    requires n <= |es| && forall i | 0 <= i < |es| :: Known(es[i])
    ensures |EncodeFirst(es, AllLongest(es), rowImplied, n)|
      == LengthOfFirst(es, rowImplied, n) - ExcessOfFirst(es, rowImplied, n)
  {
    if n > 0 {
      hide Known, Conforms, Excess, Encode, ElementLength, Longest;
      FirstAttained(es, rowImplied, n - 1);
      LongestAttains(es[n - 1], rowImplied, n == |es|);
    }
  }

  lemma AllLongestConform(es: seq<Element>)
    requires forall i | 0 <= i < |es| :: Known(es[i])
    ensures AllConform(es, AllLongest(es))
  {
    hide Known, Conforms, Longest;
    forall i | 0 <= i < |es|
      ensures Conforms(es[i], AllLongest(es)[i])
    {
      LongestAttains(es[i], false, false);
    }
  }

  lemma SameSize(es: seq<Element>, vs: seq<Value>)
    requires AllConform(es, vs)
    ensures |vs| == |es|
  {
  }

  /** The longest instance, to the sub-identifier: the computed length less the excess of the elements. */
  lemma {:induction false} LongestInstance(row: seq<nat>, column: nat, es: seq<Element>, rowImplied: bool)
    requires forall i | 0 <= i < |es| :: Known(es[i])
    ensures var longest := |row| + 1 + LengthOfFirst(es, rowImplied, |es|) - ExcessOfFirst(es, rowImplied, |es|);
      && AllConform(es, AllLongest(es)) && |Instance(row, column, es, AllLongest(es), rowImplied)| == longest
      && forall vs | AllConform(es, vs) :: |Instance(row, column, es, vs, rowImplied)| <= longest
  {
    hide Known, AllConform;
    AllLongestConform(es);
    FirstAttained(es, rowImplied, |es|);
    forall vs | AllConform(es, vs)
      ensures |vs| == |es|
      ensures |EncodeFirst(es, vs, rowImplied, |es|)|
        <= LengthOfFirst(es, rowImplied, |es|) - ExcessOfFirst(es, rowImplied, |es|)
    {
      SameSize(es, vs);
      FirstBound(es, vs, rowImplied, |es|);
    }
  }

  /** The computed length bounds every instance exactly when the excess is not negative, and some instance
      reaches or passes it exactly when the excess is not positive. */
  lemma {:induction false} IndexBound(row: seq<nat>, column: nat, es: seq<Element>, rowImplied: bool)
    requires forall i | 0 <= i < |es| :: Known(es[i])
    ensures var bound := |row| + 1 + LengthOfFirst(es, rowImplied, |es|);
      && ((forall vs | AllConform(es, vs) :: |Instance(row, column, es, vs, rowImplied)| <= bound)
          <==> ExcessOfFirst(es, rowImplied, |es|) >= 0)
      && ((exists vs :: AllConform(es, vs) && |Instance(row, column, es, vs, rowImplied)| >= bound)
          <==> ExcessOfFirst(es, rowImplied, |es|) <= 0)
  {
    hide Known, AllConform, Instance;
    LongestInstance(row, column, es, rowImplied);
    var vs := AllLongest(es);
    assert AllConform(es, vs);
  }

  lemma {:induction false} NoExcess(es: seq<Element>, rowImplied: bool, n: nat)
    requires n <= |es| && forall i | 0 <= i < |es| :: !OneTooShort(es[i], rowImplied, i + 1 == |es|)
    ensures ExcessOfFirst(es, rowImplied, n) >= 0
    ensures ExcessOfFirst(es, rowImplied, n) == 0
      <==> forall i | 0 <= i < n :: !OneTooLong(es[i], rowImplied, i + 1 == |es|)
  {
    hide OneTooLong, OneTooShort;
    if n > 0 {
      NoExcess(es, rowImplied, n - 1);
      assert !OneTooShort(es[n - 1], rowImplied, n - 1 + 1 == |es|);
    }
  }

  /** When no object identifier of the index carries the flag of an INDEX clause of its own, the computed
      length bounds every instance, and is reached by some exactly when no element is a string of fixed
      size 65535 (unless IMPLIED) and the index does not end in an IMPLIED object identifier. */
  lemma {:induction false} IndexBoundAttained(row: seq<nat>, column: nat, es: seq<Element>, rowImplied: bool)
    requires forall i | 0 <= i < |es| :: Known(es[i]) && !OneTooShort(es[i], rowImplied, i + 1 == |es|)
    ensures var bound := |row| + 1 + LengthOfFirst(es, rowImplied, |es|);
      && (forall vs | AllConform(es, vs) :: |Instance(row, column, es, vs, rowImplied)| <= bound)
      && ((exists vs :: AllConform(es, vs) && |Instance(row, column, es, vs, rowImplied)| == bound)
          <==> forall i | 0 <= i < |es| :: !OneTooLong(es[i], rowImplied, i + 1 == |es|))
  {
    hide Known, AllConform, Instance, OneTooLong, OneTooShort;
    NoExcess(es, rowImplied, |es|);
    LongestInstance(row, column, es, rowImplied);
    var vs := AllLongest(es);
    assert AllConform(es, vs);
  }

  lemma {:induction false} PartBound(es: seq<Element>, vs: seq<Value>, rowImplied: bool, n: nat, i: nat)
    requires i < n <= |es| == |vs|
    ensures |EncodeFirst(es, vs, rowImplied, n)| >= |Encode(es[i], vs[i], rowImplied, i + 1 == |es|)|
  {
    hide Encode;
    if i < n - 1 {
      PartBound(es, vs, rowImplied, n - 1, i);
    }
  }

  lemma FullSizeIsLong(e: Element)
    requires Known(e) && e.kind.OctetString? && OnlyFullSize(e)
    ensures SizeBounds(Nearest(e.chain)).1 >= 65535
  {
    hide Nearest, SizeBounds;
    BoundsAreSizes(e);
  }

  /** An element whose length is computed wrongly is long. */
  lemma WrongIsLong(e: Element, rowImplied: bool, last: bool)
    requires Known(e)
    ensures Excess(e, rowImplied, last) != 0 ==> ElementLength(e, rowImplied, last) >= 128
    ensures Excess(e, rowImplied, last) > 0 ==> ElementLength(e, rowImplied, last) >= 129
    ensures ElementLength(e, rowImplied, last) >= 0 && -1 <= Excess(e, rowImplied, last) <= 1
  {
    hide Nearest, SizeBounds, SizeAllowed, OnlyFullSize, Known, Inherits;
    if e.kind.OctetString? {
      BoundsAreSizes(e);
      if OnlyFullSize(e) {
        FullSizeIsLong(e);
      }
    }
  }

  lemma {:induction false} LengthAtLeast(es: seq<Element>, rowImplied: bool, n: nat, i: nat)
    requires i < n <= |es| && forall i | 0 <= i < |es| :: Known(es[i])
    ensures LengthOfFirst(es, rowImplied, n) >= ElementLength(es[i], rowImplied, i + 1 == |es|)
    ensures LengthOfFirst(es, rowImplied, i) >= 0
    decreases n
  {
    hide Known, Excess, ElementLength;
    WrongIsLong(es[n - 1], rowImplied, n == |es|);
    if i < n - 1 {
      LengthAtLeast(es, rowImplied, n - 1, i);
    } else if i > 0 {
      LengthAtLeast(es, rowImplied, i, i - 1);
      WrongIsLong(es[i - 1], rowImplied, i == |es|);
    }
  }

  lemma {:induction false} SomeExcess(es: seq<Element>, rowImplied: bool, n: nat)
    requires n <= |es|
    ensures ExcessOfFirst(es, rowImplied, n) == 0
      || exists i :: 0 <= i < n && Excess(es[i], rowImplied, i + 1 == |es|) != 0
  {
    hide Excess;
    if n > 0 {
      SomeExcess(es, rowImplied, n - 1);
      assert Excess(es[n - 1], rowImplied, n - 1 + 1 == |es|) == Excess(es[n - 1], rowImplied, n == |es|);
    }
  }

  /** A length that is too long or too short never makes the message wrong: a row is reported exactly when
      it has an instance of more than 128 sub-identifiers. */
  lemma {:induction false} TooLargeExactly(row: seq<nat>, column: nat, es: seq<Element>, rowImplied: bool)
    requires forall i | 0 <= i < |es| :: Known(es[i])
    ensures |row| + 1 + LengthOfFirst(es, rowImplied, |es|) > 128
      <==> exists vs :: AllConform(es, vs) && |Instance(row, column, es, vs, rowImplied)| > 128
  {
    hide Known, AllConform, Excess, Encode, ElementLength, EncodeFirst, Longest;
    LongestInstance(row, column, es, rowImplied);
    var vs := AllLongest(es);
    assert AllConform(es, vs);
    SomeExcess(es, rowImplied, |es|);
    if ExcessOfFirst(es, rowImplied, |es|) != 0 {
      var i :| 0 <= i < |es| && Excess(es[i], rowImplied, i + 1 == |es|) != 0;
      WrongIsLong(es[i], rowImplied, i + 1 == |es|);
      LengthAtLeast(es, rowImplied, |es|, i);
      PartBound(es, vs, rowImplied, |es|, i);
      LongestAttains(es[i], rowImplied, i + 1 == |es|);
      assert |Instance(row, column, es, vs, rowImplied)| > 128;
    }
  }

  /** What the message promises when it does not come: no instance has more than 128 sub-identifiers. */
  lemma {:induction false} UnreportedFits(row: seq<nat>, column: nat, es: seq<Element>, vs: seq<Value>,
                                          rowImplied: bool)
    requires (forall i | 0 <= i < |es| :: Known(es[i])) && AllConform(es, vs)
    ensures !(|row| + 1 + LengthOfFirst(es, rowImplied, |es|) > 128)
      ==> |Instance(row, column, es, vs, rowImplied)| <= 128
  {
    hide Known, AllConform, Instance;
    SameSize(es, vs);
    TooLargeExactly(row, column, es, rowImplied);
  }

  lemma FullSizeLength(e: Element)
    requires e.kind.OctetString? && |e.chain| == 1 && |e.chain[0]| == 1 && e.chain[0][0] == SizeRange(65535, 65535)
    ensures ElementLength(e, false, true) == 65536
  {
    var rs := Nearest(e.chain);
    assert MinSoFar(rs, 0) == 65535 && MaxSoFar(rs, 0) == -1;
  }

  lemma FullSizeEncoding(e: Element, v: Value)
    requires Known(e) && Conforms(e, v)
    requires e.kind.OctetString? && |e.chain| == 1 && |e.chain[0]| == 1 && e.chain[0][0] == SizeRange(65535, 65535)
    ensures |Encode(e, v, false, true)| == 65535
  {
    hide FixedSize, SizeBounds, Known, Nearest;
    assert Inherits(e.chain, 0);
    BoundsAreSizes(e);
    assert OnlyFullSize(e);
  }

  /** An index of one string of 65535 octets: the computed length is 65536, every instance part is 65535 long. */
  lemma {:induction false} FullSizeTooLong(vs: seq<Value>)
    ensures var es := [Element(OctetString, [[SizeRange(65535, 65535)]], false)];
      && LengthOfFirst(es, false, 1) == 65536
      && (AllConform(es, vs) ==> |EncodeFirst(es, vs, false, 1)| == 65535)
  {
    var e := Element(OctetString, [[SizeRange(65535, 65535)]], false);
    FullSizeLength(e);
    hide FixedSize, SizeBounds, Nearest, ElementLength, Encode;
    assert LengthOfFirst([e], false, 0) == 0;
    if AllConform([e], vs) {
      assert EncodeFirst([e], vs, false, 0) == [];
      FullSizeEncoding(e, vs[0]);
    }
  }

  /** An index of one IMPLIED object identifier: the computed length is 129, no instance part is longer
      than 128. */
  lemma {:induction false} ImpliedNameTooLong(vs: seq<Value>)
    ensures var es := [Element(ObjectId, [], false)];
      && LengthOfFirst(es, true, 1) == 129
      && (AllConform(es, vs) ==> |EncodeFirst(es, vs, true, 1)| <= 128)
  {
  }

  /** A plain index element that is an object identifier with an IMPLIED index clause of its own: the
      computed length is 128, an instance part can be 129 long. */
  lemma FlaggedColumnTooShort()
    ensures var es := [Element(ObjectId, [], true)];
      && LengthOfFirst(es, false, 1) == 128
      && AllConform(es, [Name(seq(128, _ => 0))]) && |EncodeFirst(es, [Name(seq(128, _ => 0))], false, 1)| == 129
  {
    var e, v := Element(ObjectId, [], true), Name(seq(128, _ => 0));
    assert LengthOfFirst([e], false, 0) == 0 && EncodeFirst([e], [v], false, 0) == [];
    assert [e][0] == e && [v][0] == v;
  }

  /** A string without a size of its own, of a type derived from one with SIZE (0..16), counts with that size. */
  lemma InheritedSizeCounts()
    ensures LengthOfFirst([Element(OctetString, [[], [SizeRange(0, 16)]], false)], false, 1) == 17
  {
    var e := Element(OctetString, [[], [SizeRange(0, 16)]], false);
    assert Inherits(e.chain, 1);
    NearestInherits(e.chain);
    var rs := Nearest(e.chain);
    assert rs == [SizeRange(0, 16)];
    assert MinSoFar(rs, 0) == 65535 && MaxSoFar(rs, 0) == -1;
    assert LengthOfFirst([e], false, 0) == 0;
  }

  /** BITS and the types that the function rejects or cannot resolve add nothing to the length. */
  lemma {:induction false} UncountedElements(es: seq<Element>, rowImplied: bool, n: nat)
    requires n <= |es|
    requires forall i | 0 <= i < n :: es[i].kind.BitString? || es[i].kind.OtherBase? || es[i].kind.Untyped?
    ensures LengthOfFirst(es, rowImplied, n) == 0
  {
    if n > 0 {
      UncountedElements(es, rowImplied, n - 1);
    }
  }
}
