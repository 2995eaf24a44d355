/** The address scan of the discovery window: counting a range and stepping through it. */
module Addresses {
  import opened ByteWords

  const TWO32 := 0x1_0000_0000
  const TWO64 := 0x1_0000_0000_0000_0000
  const TWO128 := TWO64 * TWO64

  lemma Widths()
    ensures Pow256(4) == TWO32 && Pow256(8) == TWO64 && Pow256(16) == TWO128
  {
  }

  // ---------- reading a word from bytes ----------

  /** `(unsigned)byte << (k * 8)` in a word of `width` bytes. */
  function ShiftLeft(b: Byte, k: nat, width: nat): nat {
    (b * Pow256(k)) % Pow256(width)
  }

  lemma SmallModulo(x: nat, m: nat)
    requires x < m
    ensures x % m == x
  {
  }

  lemma {:induction false} PowGrows(a: nat, b: nat)
    requires a <= b
    ensures Pow256(a) <= Pow256(b)
  {
    if a < b {
      PowGrows(a, b - 1);
    }
  }

  /** One turn of the reading loops: or the next byte to the left in. */
  lemma {:induction false} OrByte(x: nat, b: Byte, t: seq<Byte>, width: nat)
    requires x == BigEndian(t) && |t| < width
    ensures BitOr(x, ShiftLeft(b, |t|, width)) == BigEndian([b] + t)
  {
    var k := |t|;
    BigEndianBound(t);
    Pow256IsPow2(k);
    OrShifted(x, b, 8 * k);
    BigEndianSum([b], t);
    assert [b][..0] == [];
    BigEndianBound([b] + t);
    PowGrows(k + 1, width);
    SmallModulo(b * Pow256(k), Pow256(width));
  }

  lemma NoBytes()
    ensures BigEndian([]) == 0
  {
  }

  method Ipv4FromUchar(a: array<Byte>) returns (integer: nat)
    requires a.Length >= 4
    ensures integer == BigEndian(a[..4])
  {
    hide BitOr, ShiftLeft, BigEndian;
    NoBytes();
    assert a[4..4] == [];
    integer := 0;
    var k := 4;
    while k > 0
      invariant 0 <= k <= 4 && integer == BigEndian(a[k..4])
    {
      OrByte(integer, a[k - 1], a[k..4], 4);
      assert a[k - 1..4] == [a[k - 1]] + a[k..4];
      integer := BitOr(integer, ShiftLeft(a[k - 1], 4 - k, 4));
      k := k - 1;
    }
  }

  method Ipv6FromUchar(a: array<Byte>) returns (hi: nat, lo: nat)
    requires a.Length >= 16
    ensures hi == BigEndian(a[..8]) && lo == BigEndian(a[8..16])
  {
    hide BitOr, ShiftLeft, BigEndian;
    NoBytes();
    assert a[8..8] == [] && a[16..16] == [];
    hi, lo := 0, 0;
    var k := 8;
    while k > 0
      invariant 0 <= k <= 8 && hi == BigEndian(a[k..8]) && lo == BigEndian(a[k + 8..16])
    {
      OrByte(hi, a[k - 1], a[k..8], 8);
      OrByte(lo, a[k + 7], a[k + 8..16], 8);
      assert a[k - 1..8] == [a[k - 1]] + a[k..8];
      assert a[k + 7..16] == [a[k + 7]] + a[k + 8..16];
      hi := BitOr(hi, ShiftLeft(a[k - 1], 8 - k, 8));
      lo := BitOr(lo, ShiftLeft(a[k + 7], 8 - k, 8));
      k := k - 1;
    }
  }

  // ---------- writing a word to bytes ----------

  method Ipv4ToUchar(a: array<Byte>, integer: nat)
    requires a.Length >= 4 && integer < TWO32
    modifies a
    ensures BigEndian(a[..4]) == integer && a[4..] == old(a[4..])
  {
    var k := 4;
    while k > 0
      invariant 0 <= k <= 4
      invariant forall i | k <= i < 4 :: a[i] == ByteOf(integer, 3 - i)
      invariant forall i | 4 <= i < a.Length :: a[i] == old(a[i])
    {
      a[k - 1] := ByteOf(integer, 4 - k);
      k := k - 1;
    }
    Widths();
    BytesEncode(integer, a[..4]);
  }

  method Ipv6ToUchar(a: array<Byte>, hi: nat, lo: nat)
    requires a.Length == 16 && hi < TWO64 && lo < TWO64
    modifies a
    ensures BigEndian(a[..8]) == hi && BigEndian(a[8..16]) == lo
  {
    var k := 8;
    while k > 0
      invariant 0 <= k <= 8
      invariant forall i | k <= i < 8 :: a[i] == ByteOf(hi, 7 - i)
      invariant forall i | k + 8 <= i < 16 :: a[i] == ByteOf(lo, 15 - i)
    {
      a[k - 1] := ByteOf(hi, 8 - k);
      a[k + 7] := ByteOf(lo, 8 - k);
      k := k - 1;
    }
    Widths();
    BytesEncode(hi, a[..8]);
    BytesEncode(lo, a[8..16]);
  }

  lemma {:induction false} TwoWords(s: seq<Byte>)
    requires |s| == 16
    ensures BigEndian(s) == BigEndian(s[..8]) * TWO64 + BigEndian(s[8..16])
    ensures BigEndian(s[..8]) < TWO64 && BigEndian(s[8..16]) < TWO64
  {
    hide Pow256, BigEndian;
    Widths();
    BigEndianSum(s[..8], s[8..16]);
    assert s == s[..8] + s[8..16];
    BigEndianBound(s[..8]);
    BigEndianBound(s[8..16]);
  }

  // ---------- the probe loop ----------

  /** The number reached from `start` after `j` increments of a word of the given modulus. */
  ghost function Shifted(start: nat, j: nat, modulus: nat): nat
    requires modulus > 0
  {
    (start + j) % modulus
  }

  lemma Remainder(x: nat, q: nat, m: nat)
    requires m > 0 && q == x / m
    ensures x == m * q + x % m && m * (q + 1) == m * q + m && x % m < m
  {
  }

  lemma RemainderIs(x: nat, q: nat, r: nat, m: nat)
    requires m > 0 && x == m * q + r && r < m
    ensures x % m == r
  {
    DivideOut(q, r, m);
    Remainder(x, q, m);
  }

  lemma ShiftedNext(start: nat, j: nat, modulus: nat)
    requires modulus > 0
    ensures Shifted(start, j + 1, modulus) == (Shifted(start, j, modulus) + 1) % modulus
    ensures start < modulus ==> Shifted(start, 0, modulus) == start
  {
    var x, q := (start + j) % modulus, (start + j) / modulus;
    Remainder(start + j, q, modulus);
    if x + 1 == modulus {
      RemainderIs(start + j + 1, q + 1, 0, modulus);
      RemainderIs(x + 1, 1, 0, modulus);
    } else {
      RemainderIs(start + j + 1, q, x + 1, modulus);
      SmallModulo(x + 1, modulus);
    }
    if start < modulus {
      SmallModulo(start, modulus);
    }
  }

  /** The state of a probe loop after `j` probes: each probed address is the start plus its position. */
  ghost predicate Probed(probed: seq<seq<Byte>>, start: nat, modulus: nat, width: nat)
    requires modulus > 0
  {
    forall i | 0 <= i < |probed| :: |probed[i]| == width && BigEndian(probed[i]) == Shifted(start, i, modulus)
  }

  method NextIpv4(cur: array<Byte>, curaddr: nat) returns (next: nat)
    requires cur.Length == 4 && curaddr == BigEndian(cur[..])
    modifies cur
    ensures next == BigEndian(cur[..]) == (curaddr + 1) % TWO32
  {
    next := (curaddr + 1) % TWO32;
    Ipv4ToUchar(cur, next);
    assert cur[..4] == cur[..];
  }

  /** The loop over an IPv4 range: the addresses probed, in order.  It is left early when the scan is
      aborted after `aborted` probes. */
  method ProbeIpv4(cur: array<Byte>, numAddr: nat, aborted: nat) returns (probed: seq<seq<Byte>>)
    requires cur.Length == 4
    modifies cur
    ensures |probed| == if aborted < numAddr then aborted else numAddr
    ensures Probed(probed, BigEndian(old(cur[..])), TWO32, 4)
  {
    hide BigEndian, Shifted;
    ghost var start := BigEndian(cur[..]);
    Widths();
    BigEndianBound(cur[..]);
    var curaddr := Ipv4FromUchar(cur);
    assert cur[..4] == cur[..];
    ShiftedNext(start, 0, TWO32);
    probed := [];
    var j: nat := 0;
    while j < numAddr && j < aborted
      invariant j <= numAddr && j <= aborted && |probed| == j
      invariant curaddr == BigEndian(cur[..]) == Shifted(start, j, TWO32)
      invariant Probed(probed, start, TWO32, 4)
    {
      probed := probed + [cur[..]];
      ShiftedNext(start, j, TWO32);
      curaddr := NextIpv4(cur, curaddr);
      j := j + 1;
    }
  }

  /** The two-word increment is the increment of the 128-bit number. */
  lemma Carry(hi: nat, lo: nat)
    requires hi < TWO64 && lo < TWO64
    ensures var hi' := if lo == TWO64 - 1 then (hi + 1) % TWO64 else hi;
      hi' * TWO64 + (lo + 1) % TWO64 == (hi * TWO64 + lo + 1) % TWO128
  {
  }

  /** The increment of an IPv6 address held in two words. */
  method NextIpv6(cur: array<Byte>, hi: nat, lo: nat) returns (hi': nat, lo': nat)
    requires cur.Length == 16 && hi < TWO64 && lo < TWO64
    modifies cur
    ensures hi' < TWO64 && lo' < TWO64 && BigEndian(cur[..]) == hi' * TWO64 + lo'
    ensures hi' * TWO64 + lo' == (hi * TWO64 + lo + 1) % TWO128
  {
    hide BigEndian;
    hi' := hi;
    if lo == 0xFFFF_FFFF_FFFF_FFFF {
      hi' := (hi + 1) % TWO64;
    }
    lo' := (lo + 1) % TWO64;
    Carry(hi, lo);
    Ipv6ToUchar(cur, hi', lo');
    TwoWords(cur[..]);
    assert cur[..][..8] == cur[..8] && cur[..][8..16] == cur[8..16];
  }

  /** The loop over an IPv6 range, with the address in two 64-bit words. */
  method ProbeIpv6(cur: array<Byte>, numAddr: nat, aborted: nat) returns (probed: seq<seq<Byte>>)
    requires cur.Length == 16
    modifies cur
    ensures |probed| == if aborted < numAddr then aborted else numAddr
    ensures Probed(probed, BigEndian(old(cur[..])), TWO128, 16)
  {
    hide BigEndian, Shifted;
    ghost var start := BigEndian(cur[..]);
    TwoWords(cur[..]);
    var hi: nat, lo: nat := Ipv6FromUchar(cur);
    assert cur[..][..8] == cur[..8] && cur[..][8..16] == cur[8..16];
    ShiftedNext(start, 0, TWO128);
    probed := [];
    var j: nat := 0;
    while j < numAddr && j < aborted
      invariant j <= numAddr && j <= aborted && |probed| == j
      invariant hi < TWO64 && lo < TWO64
      invariant BigEndian(cur[..]) == hi * TWO64 + lo == Shifted(start, j, TWO128)
      invariant Probed(probed, start, TWO128, 16)
    {
      probed := probed + [cur[..]];
      ShiftedNext(start, j, TWO128);
      hi, lo := NextIpv6(cur, hi, lo);
      j := j + 1;
    }
  }

  // ---------- counting a range ----------

  datatype Verdict = Accepted(count: nat) | InvalidAddress | InvalidRange

  function CountedIpv4(f: nat, t: nat): Verdict {
    if f <= t then Accepted((t - f + 1) % TWO32) else InvalidRange
  }

  /** The checks of `Discovery::Discover` on an IPv4 range, in 32-bit arithmetic. */
  method CountIpv4(from: array<Byte>, to: array<Byte>) returns (v: Verdict)
    requires from.Length == 4 && to.Length == 4
    ensures v == if from[0] == 0 || to[0] == 0 then InvalidAddress
      else CountedIpv4(BigEndian(from[..4]), BigEndian(to[..4]))
  {
    if from[0] == 0 || to[0] == 0 {
      return InvalidAddress;
    }
    var f := Ipv4FromUchar(from);
    var t := Ipv4FromUchar(to);
    if f <= t {
      v := Accepted((t - f + 1) % TWO32);
    } else {
      v := InvalidRange;
    }
  }

  /** The checks on an IPv6 range, in 64-bit arithmetic. */
  function CountedIpv6(hifrom: nat, lofrom: nat, hito: nat, loto: nat): Verdict
    requires hifrom < TWO64 && lofrom < TWO64 && hito < TWO64 && loto < TWO64
  {
    if (hito - hifrom) % TWO64 == 0 && lofrom <= loto then Accepted((loto - lofrom + 1) % TWO64)
    else if (hito - hifrom) % TWO64 == 1 && lofrom > loto then Accepted((TWO64 - 1 - lofrom + loto + 1) % TWO64)
    else InvalidRange
  }

  method CountIpv6(from: array<Byte>, to: array<Byte>) returns (v: Verdict)
    requires from.Length == 16 && to.Length == 16
    ensures BigEndian(from[..8]) < TWO64 && BigEndian(from[8..16]) < TWO64
    ensures BigEndian(to[..8]) < TWO64 && BigEndian(to[8..16]) < TWO64
    ensures v == if from[0] == 0 || to[0] == 0 then InvalidAddress
      else CountedIpv6(BigEndian(from[..8]), BigEndian(from[8..16]), BigEndian(to[..8]), BigEndian(to[8..16]))
  {
    TwoWords(from[..]);
    TwoWords(to[..]);
    assert from[..][..8] == from[..8] && from[..][8..16] == from[8..16];
    assert to[..][..8] == to[..8] && to[..][8..16] == to[8..16];
    if from[0] == 0 || to[0] == 0 {
      return InvalidAddress;
    }
    var hifrom, lofrom := Ipv6FromUchar(from);
    var hito, loto := Ipv6FromUchar(to);
    if (hito - hifrom) % TWO64 == 0 && lofrom <= loto {
      v := Accepted((loto - lofrom + 1) % TWO64);
    } else if (hito - hifrom) % TWO64 == 1 && lofrom > loto {
      v := Accepted((TWO64 - 1 - lofrom + loto + 1) % TWO64);
    } else {
      v := InvalidRange;
    }
  }

  // ---------- main results ----------

  /** A first byte that is not zero makes the word large. */
  lemma {:induction false} LeadingByte(s: seq<Byte>)
    requires s != [] && s[0] != 0
    ensures BigEndian(s) >= Pow256(|s| - 1)
  {
    if |s| > 1 {
      LeadingByte(s[..|s| - 1]);
    } else {
      assert s[..0] == [];
    }
  }

  /** The addresses that a scan of `count` steps from `start` probes, as numbers. */
  ghost predicate Probes(start: nat, count: nat, modulus: nat, x: nat)
    requires modulus > 0
  {
    exists j :: 0 <= j < count && x == Shifted(start, j, modulus)
  }

  /** Below the modulus a scan visits exactly a run of consecutive addresses, each once. */
  lemma ScanIsRun(start: nat, count: nat, modulus: nat)
    requires modulus > 0 && start + count <= modulus
    ensures forall x: nat :: Probes(start, count, modulus, x) <==> start <= x < start + count
    ensures forall j | 0 <= j < count :: Shifted(start, j, modulus) == start + j
  {
    forall j | 0 <= j < count
      ensures Shifted(start, j, modulus) == start + j
    {
      SmallModulo(start + j, modulus);
    }
    forall x: nat | start <= x < start + count
      ensures Probes(start, count, modulus, x)
    {
      assert x == Shifted(start, x - start, modulus);
    }
  }

  /** An accepted IPv4 range is visited as exactly its addresses, ascending, each once; the 32-bit
      count does not wrap because the first byte is not zero. */
  lemma {:induction false} Ipv4RangeVisited(from: seq<Byte>, to: seq<Byte>)
    requires |from| == 4 && |to| == 4 && from[0] != 0 && to[0] != 0
    ensures var f, t := BigEndian(from), BigEndian(to); var v := CountedIpv4(f, t);
      && (v.Accepted? <==> f <= t)
      && (v.Accepted? ==>
           && v.count == t - f + 1
           && (forall x: nat :: Probes(f, v.count, TWO32, x) <==> f <= x <= t)
           && forall j | 0 <= j < v.count :: Shifted(f, j, TWO32) == f + j)
  {
    Widths();
    LeadingByte(from);
    BigEndianBound(to);
    var f, t := BigEndian(from), BigEndian(to);
    if f <= t {
      SmallModulo(t - f + 1, TWO32);
      ScanIsRun(f, t - f + 1, TWO32);
    }
  }

  /** An IPv6 range is accepted exactly when it is ascending and spans fewer than 2^64 steps. */
  lemma Ipv6RangeAccepted(hifrom: nat, lofrom: nat, hito: nat, loto: nat)
    requires hifrom < TWO64 && lofrom < TWO64 && 0 < hito < TWO64 && loto < TWO64
    ensures var f, t := hifrom * TWO64 + lofrom, hito * TWO64 + loto;
      CountedIpv6(hifrom, lofrom, hito, loto).Accepted? <==> f <= t < f + TWO64
  {
  }

  lemma CountIs(hifrom: nat, lofrom: nat, hito: nat, loto: nat)
    requires hifrom < TWO64 && lofrom < TWO64 && 0 < hito < TWO64 && loto < TWO64
    requires CountedIpv6(hifrom, lofrom, hito, loto).Accepted?
    ensures var f, t := hifrom * TWO64 + lofrom, hito * TWO64 + loto;
      CountedIpv6(hifrom, lofrom, hito, loto).count
        == if hifrom != hito then t - f else if lofrom == 0 && loto == TWO64 - 1 then 0 else t - f + 1
    ensures hifrom == hito || (hito == hifrom + 1 && lofrom > loto)
  {
  }

  /** The whole of an accepted IPv6 range is visited exactly when the upper words agree and the range
      does not take the full lower word.  Otherwise the last address is missed (the lower word wraps:
      `to - from` addresses are visited), or nothing is visited (the count wraps to 0). */
  lemma {:induction false} Ipv6RangeVisited(from: seq<Byte>, to: seq<Byte>)
    requires |from| == 16 && |to| == 16 && from[0] != 0 && to[0] != 0
    ensures var f, t := BigEndian(from), BigEndian(to);
      var hifrom, lofrom := BigEndian(from[..8]), BigEndian(from[8..16]);
      var hito, loto := BigEndian(to[..8]), BigEndian(to[8..16]);
      && hifrom < TWO64 && lofrom < TWO64 && hito < TWO64 && loto < TWO64
      && var v := CountedIpv6(hifrom, lofrom, hito, loto);
      && (v.Accepted? <==> f <= t < f + TWO64)
      && (v.Accepted? ==>
           && v.count == (if hifrom != hito then t - f else if t - f == TWO64 - 1 then 0 else t - f + 1)
           && (forall x: nat :: Probes(f, v.count, TWO128, x) <==> f <= x < f + v.count)
           && ((forall x: nat :: Probes(f, v.count, TWO128, x) <==> f <= x <= t)
               <==> hifrom == hito && !(lofrom == 0 && loto == TWO64 - 1)))
  {
    var f, t := BigEndian(from), BigEndian(to);
    var hifrom, lofrom := BigEndian(from[..8]), BigEndian(from[8..16]);
    var hito, loto := BigEndian(to[..8]), BigEndian(to[8..16]);
    TwoWords(from);
    TwoWords(to);
    Widths();
    LeadingByte(to[..8]);
    BigEndianBound(to);
    Ipv6RangeAccepted(hifrom, lofrom, hito, loto);
    var v := CountedIpv6(hifrom, lofrom, hito, loto);
    if v.Accepted? {
      CountIs(hifrom, lofrom, hito, loto);
      ScanIsRun(f, v.count, TWO128);
      assert Probes(f, v.count, TWO128, t) <==> f <= t < f + v.count;
    }
  }

  // ---------- whole scans ----------

  /** The addresses of a range as bytes, ascending. */
  ghost function AllAddresses(from: seq<Byte>, to: seq<Byte>): (all: seq<seq<Byte>>)
    requires BigEndian(from) <= BigEndian(to)
    ensures |all| == BigEndian(to) - BigEndian(from) + 1
    ensures forall j | 0 <= j < |all| :: all[j] == Bytes(BigEndian(from) + j, |from|)
  {
    seq(BigEndian(to) - BigEndian(from) + 1, j requires 0 <= j <= BigEndian(to) - BigEndian(from) =>
      Bytes(BigEndian(from) + j, |from|))
  }

  /** These are exactly the byte strings between the two ends, which come first and last, each once and
      in ascending order. */
  lemma {:induction false} AllAddressesAre(from: seq<Byte>, to: seq<Byte>)
    requires |from| == |to| && BigEndian(from) <= BigEndian(to)
    ensures var all := AllAddresses(from, to);
      && all[0] == from && all[|all| - 1] == to
      && (forall j | 0 <= j < |all| :: |all[j]| == |from| && BigEndian(all[j]) == BigEndian(from) + j)
      && (forall a: seq<Byte> | |a| == |from| :: a in all <==> BigEndian(from) <= BigEndian(a) <= BigEndian(to))
  {
    hide BigEndian, ByteOf, Bytes;
    var all, f := AllAddresses(from, to), BigEndian(from);
    BytesRoundTrip(0, from);
    BytesRoundTrip(0, to);
    BigEndianBound(to);
    forall j | 0 <= j < |all|
      ensures |all[j]| == |from| && BigEndian(all[j]) == f + j
    {
      BytesRoundTrip(f + j, from);
    }
    forall a: seq<Byte> | |a| == |from| && f <= BigEndian(a) <= BigEndian(to)
      ensures a in all
    {
      BytesRoundTrip(0, a);
      assert a == all[BigEndian(a) - f];
    }
  }

  function Least(a: nat, b: nat): nat {
    if a < b then a else b
  }

  lemma {:induction false} ProbedAre(probed: seq<seq<Byte>>, from: seq<Byte>, to: seq<Byte>, modulus: nat)
    requires |from| == |to| && BigEndian(from) <= BigEndian(to) && modulus == Pow256(|from|)
    requires |probed| <= BigEndian(to) - BigEndian(from) + 1
    requires Probed(probed, BigEndian(from), modulus, |from|)
    ensures probed == AllAddresses(from, to)[..|probed|]
  {
    hide BigEndian, ByteOf, Bytes, Pow256;
    BigEndianBound(to);
    forall i | 0 <= i < |probed|
      ensures probed[i] == Bytes(BigEndian(from) + i, |from|)
    {
      SmallModulo(BigEndian(from) + i, modulus);
      BytesRoundTrip(0, probed[i]);
    }
  }

  /** An IPv4 range is checked and then scanned on a copy of its first address: an accepted range is
      probed byte string by byte string from one end to the other, or as far as the scan gets. */
  method ScanIpv4(from: array<Byte>, to: array<Byte>, aborted: nat) returns (v: Verdict, probed: seq<seq<Byte>>)
    requires from.Length == 4 && to.Length == 4
    ensures v == if from[0] == 0 || to[0] == 0 then InvalidAddress
      else if BigEndian(from[..]) <= BigEndian(to[..]) then Accepted(BigEndian(to[..]) - BigEndian(from[..]) + 1)
      else InvalidRange
    ensures v.Accepted? ==>
      var all := AllAddresses(from[..], to[..]); probed == all[..Least(aborted, |all|)]
    ensures !v.Accepted? ==> probed == []
  {
    hide BigEndian, Bytes, Shifted, Probes;
    assert from[..4] == from[..] && to[..4] == to[..];
    v := CountIpv4(from, to);
    probed := [];
    if v.Accepted? {
      Ipv4RangeVisited(from[..], to[..]);
      var cur := new Byte[4](i requires 0 <= i < 4 reads from => from[i]);
      assert cur[..] == from[..];
      probed := ProbeIpv4(cur, v.count, aborted);
      Widths();
      ProbedAre(probed, from[..], to[..], TWO32);
    } else if from[0] != 0 && to[0] != 0 {
      Ipv4RangeVisited(from[..], to[..]);
    }
  }

  /** How many addresses of an accepted IPv6 range are probed: all, unless the upper words differ, when the
      last is left out, or the range fills the lower word, when none is probed. */
  ghost function ProbedOf(from: seq<Byte>, to: seq<Byte>): nat
    requires |from| == |to| == 16 && BigEndian(from) <= BigEndian(to)
  {
    var n := |AllAddresses(from, to)|;
    if BigEndian(from[..8]) != BigEndian(to[..8]) then n - 1 else if n == TWO64 then 0 else n
  }

  /** The same for an IPv6 range. */
  method ScanIpv6(from: array<Byte>, to: array<Byte>, aborted: nat) returns (v: Verdict, probed: seq<seq<Byte>>)
    requires from.Length == 16 && to.Length == 16
    ensures v.InvalidAddress? <==> from[0] == 0 || to[0] == 0
    ensures v.Accepted?
      <==> !v.InvalidAddress? && BigEndian(from[..]) <= BigEndian(to[..]) < BigEndian(from[..]) + TWO64
    ensures v.Accepted? ==>
      probed == AllAddresses(from[..], to[..])[..Least(aborted, ProbedOf(from[..], to[..]))]
    ensures !v.Accepted? ==> probed == []
  {
    hide BigEndian, Bytes, Shifted, Probes;
    assert from[..][..8] == from[..8] && from[..][8..16] == from[8..16];
    assert to[..][..8] == to[..8] && to[..][8..16] == to[8..16];
    v := CountIpv6(from, to);
    probed := [];
    if from[0] != 0 && to[0] != 0 {
      Ipv6RangeVisited(from[..], to[..]);
    }
    if v.Accepted? {
      var cur := new Byte[16](i requires 0 <= i < 16 reads from => from[i]);
      assert cur[..] == from[..];
      probed := ProbeIpv6(cur, v.count, aborted);
      Widths();
      ProbedAre(probed, from[..], to[..], TWO128);
    }
  }

  /** The last address before a 64-bit boundary and the one after it are a range of two addresses, of
      which the second is not probed. */
  lemma CarryMissesLast()
    ensures var hi := 0x2001_0DB8_0000_0000; var f := hi * TWO64 + TWO64 - 1;
      && CountedIpv6(hi, TWO64 - 1, hi + 1, 0) == Accepted(1)
      && Probes(f, 1, TWO128, f) && !Probes(f, 1, TWO128, f + 1)
  {
    var f := 0x2001_0DB8_0000_0000 * TWO64 + TWO64 - 1;
    ScanIsRun(f, 1, TWO128);
  }

  /** All addresses under one upper word are a range of which none is probed. */
  lemma FullRangeMissesAll(x: nat)
    ensures var hi := 0x2001_0DB8_0000_0000;
      CountedIpv6(hi, 0, hi, TWO64 - 1) == Accepted(0) && !Probes(hi * TWO64, 0, TWO128, x)
  {
  }
}
