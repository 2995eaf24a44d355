/** The range or length expression that `smi2yangSubtype` writes for a list of ranges. */
module RangeText {
  import opened Decimal
  import opened Seqs
  import opened Texts
  import opened SmiValues
  import opened Ranges
  import opened RangeMeaning

  /** One part of the expression: a single value, or two limits. */
  function PartText(r: Range): string {
    if r.min == r.max then DecInt(Number(r.min))
    else DecInt(Number(r.min)) + ".." + DecInt(Number(r.max))
  }

  /** The text for the first `n` ranges. */
  function Text(rs: seq<Range>, n: nat): string
    requires n <= |rs|
  {
    if n == 0 then ""
    else if n == 1 then PartText(rs[0])
    else Text(rs, n - 1) + "|" + PartText(rs[n - 1])
  }

  /** The text one turn appends to. */
  function Lead(so: Option<string>): string {
    if so.Some? then so.value + "|" else ""
  }

  lemma TurnText(rs: seq<Range>, k: nat, so: Option<string>, sn: string)
    requires k < |rs| && so == if k == 0 then None else Some(Text(rs, k))
    requires var first := Lead(so) + DecInt(Number(rs[k].min));
      sn == if rs[k].min == rs[k].max then first else first + ".." + DecInt(Number(rs[k].max))
    ensures sn == Text(rs, k + 1)
  {
  }

  /** The accumulation loop.  `so` is null before the first range. */
  method RangeExpression(rs: seq<Range>) returns (so: Option<string>)
    ensures so == if rs == [] then None else Some(Text(rs, |rs|))
  {
    hide DecInt, Text;
    so := None;
    var k: nat := 0;
    while k < |rs|
      invariant k <= |rs| && so == if k == 0 then None else Some(Text(rs, k))
    {
      var sn := Lead(so) + DecInt(Number(rs[k].min));
      if rs[k].min != rs[k].max {
        sn := sn + ".." + DecInt(Number(rs[k].max));
      }
      TurnText(rs, k, so, sn);
      so := Some(sn);
      k := k + 1;
    }
  }

  // ---------- reading an expression ----------

  function FirstDot(s: string): (k: nat)
    ensures k <= |s| && '.' !in s[..k] && (k < |s| ==> s[k] == '.')
  {
    if s == "" || s[0] == '.' then 0 else FirstDot(s[1..]) + 1
  }

  /** A part as section 9.2.4 of RFC 6020 reads it: one value, or two with ".." between. */
  function ReadPart(s: string): Option<(int, int)> {
    var k := FirstDot(s);
    if k == |s| then
      (if IsNumeral(s) then Some((ReadInt(s), ReadInt(s))) else None)
    else if k + 1 < |s| && s[k + 1] == '.' && IsNumeral(s[..k]) && IsNumeral(s[k + 2..]) then
      Some((ReadInt(s[..k]), ReadInt(s[k + 2..])))
    else None
  }

  function ReadParts(parts: seq<string>): Option<seq<(int, int)>> {
    if parts == [] then Some([])
    else
      match (ReadPart(parts[0]), ReadParts(parts[1..]))
      case (Some(p), Some(ps)) => Some([p] + ps)
      case _ => None
  }

  function ReadExpression(s: string): Option<seq<(int, int)>> {
    ReadParts(Split(s, '|'))
  }

  // ---------- round trip ----------

  lemma NumeralChars(x: int)
    ensures '.' !in DecInt(x) && '|' !in DecInt(x)
  {
  }

  lemma {:induction false} FirstDotIs(a: string, b: string)
    requires '.' !in a && (b == "" || b[0] == '.')
    ensures FirstDot(a + b) == |a|
  {
    if a == "" {
      assert a + b == b;
    } else {
      FirstDotIs(a[1..], b);
      assert (a + b)[1..] == a[1..] + b;
    }
  }

  lemma ReadSingle(a: string)
    requires IsNumeral(a) && '.' !in a
    ensures ReadPart(a) == Some((ReadInt(a), ReadInt(a)))
  {
  }

  lemma ReadPair(a: string, b: string)
    requires IsNumeral(a) && IsNumeral(b) && '.' !in a
    ensures ReadPart(a + ".." + b) == Some((ReadInt(a), ReadInt(b)))
  {
    hide IsNumeral, ReadInt;
    FirstDotIs(a, ".." + b);
    var s := a + (".." + b);
    assert s == a + ".." + b && s[..|a|] == a && s[|a| + 2..] == b;
    assert s[|a|] == '.' && s[|a| + 1] == '.';
  }

  lemma ReadPartText(r: Range)
    ensures ReadPart(PartText(r)) == Some((Number(r.min), Number(r.max))) && '|' !in PartText(r)
  {
    hide DecInt, ReadPart, IsNumeral, ReadInt;
    var a, b := DecInt(Number(r.min)), DecInt(Number(r.max));
    NumeralChars(Number(r.min));
    NumeralChars(Number(r.max));
    ReadIntDecInt(Number(r.min));
    ReadIntDecInt(Number(r.max));
    if r.min == r.max {
      ReadSingle(a);
      assert PartText(r) == a;
    } else {
      ReadPair(a, b);
    }
  }

  ghost function Limits(rs: seq<Range>): (r: seq<(int, int)>)
    ensures |r| == |rs| && forall i | 0 <= i < |rs| :: r[i] == (Lo(rs[i]), Hi(rs[i]))
  {
    seq(|rs|, i requires 0 <= i < |rs| => (Lo(rs[i]), Hi(rs[i])))
  }

  lemma {:induction false} ReadPartsSnoc(parts: seq<string>, t: string)
    requires ReadParts(parts).Some? && ReadPart(t).Some?
    ensures ReadParts(parts + [t]) == Some(ReadParts(parts).value + [ReadPart(t).value])
  {
    hide ReadPart;
    if parts == [] {
      assert parts + [t] == [t] && [t][1..] == [];
      assert ReadParts([t][1..]) == Some([]);
      assert [ReadPart(t).value] + [] == [ReadPart(t).value] == [] + [ReadPart(t).value];
    } else {
      ReadPartsSnoc(parts[1..], t);
      assert (parts + [t])[1..] == parts[1..] + [t];
      var first, rest, last := ReadPart(parts[0]).value, ReadParts(parts[1..]).value, ReadPart(t).value;
      assert [first] + (rest + [last]) == ([first] + rest) + [last];
    }
  }

  lemma {:induction false} ReadOne(t: string)
    requires ReadPart(t).Some? && '|' !in t
    ensures ReadParts(Split(t, '|')) == Some([ReadPart(t).value])
  {
    hide ReadPart;
    SplitOne(t, '|');
    assert ReadParts([]) == Some([]);
    ReadPartsSnoc([], t);
    assert [] + [t] == [t] && [] + [ReadPart(t).value] == [ReadPart(t).value];
  }

  lemma {:induction false} ReadText(rs: seq<Range>, n: nat)
    requires 0 < n <= |rs|
    ensures ReadParts(Split(Text(rs, n), '|')) == Some(Limits(rs)[..n])
  {
    hide PartText, ReadPart, ReadParts, Split;
    var t := PartText(rs[n - 1]);
    ReadPartText(rs[n - 1]);
    assert Limits(rs)[..n] == Limits(rs)[..n - 1] + [Limits(rs)[n - 1]];
    if n == 1 {
      ReadOne(t);
      assert Text(rs, 1) == t && Limits(rs)[..1] == [Limits(rs)[0]];
    } else {
      ReadText(rs, n - 1);
      SplitAppend(Text(rs, n - 1), '|', t);
      ReadPartsSnoc(Split(Text(rs, n - 1), '|'), t);
    }
  }

  /** The expression written for a list of ranges reads back as that list. */
  lemma {:induction false} ExpressionRoundTrip(rs: seq<Range>)
    requires rs != []
    ensures ReadExpression(Text(rs, |rs|)) == Some(Limits(rs))
  {
    hide Text, ReadParts, Split;
    ReadText(rs, |rs|);
    assert Limits(rs)[..|rs|] == Limits(rs);
  }

  /** Section 9.2.4 of RFC 6020: the parts are disjoint and in ascending order. */
  ghost predicate DisjointAscending(parts: seq<(int, int)>) {
    && (forall i | 0 <= i < |parts| :: parts[i].0 <= parts[i].1)
    && forall i, j | 0 <= i < j < |parts| :: parts[i].1 < parts[j].0
  }

  /** Written for a list that was checked without an overlap report, the expression is a legal one. */
  lemma {:induction false} CheckedExpressionLegal(base: BaseType, V: Limits, rs: seq<Range>)
    requires Uniform(base, V, rs) && rs != [] && Overlap !in RunReports(base, rs)
    ensures var text := Text(Checked(base, rs), |Checked(base, rs)|);
      && ReadExpression(text) == Some(Limits(Checked(base, rs)))
      && DisjointAscending(Limits(Checked(base, rs)))
  {
    hide RunReports, Checked, Text, ReadExpression;
    CheckedCanonical(base, V, rs);
    CheckedComparable(base, V, rs);
    ExpressionRoundTrip(Checked(base, rs));
  }

  /** A range of one value is written as that value alone, any other with two limits. */
  lemma SingleValueAlone(r: Range)
    ensures '.' in PartText(r) <==> r.min != r.max
    ensures r.min == r.max ==> PartText(r) == DecInt(Number(r.min))
  {
    hide DecInt;
    NumeralChars(Number(r.min));
    if r.min != r.max {
      assert PartText(r)[|DecInt(Number(r.min))|] == '.';
    }
  }

  /** SIZE (1..2 | 8) */
  lemma {:induction false} ExpressionText(rs: seq<Range>)
    requires rs == [Range(Unsigned(1), Unsigned(2)), Range(Unsigned(8), Unsigned(8))]
    ensures Text(rs, 2) == "1..2|8"
  {
    DigitAppended(0, 1);
    DigitAppended(0, 2);
    DigitAppended(0, 8);
    assert Text(rs, 1) == "1..2";
  }
}
