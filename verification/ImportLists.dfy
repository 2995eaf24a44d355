/** The sorted list of imported modules and the prefixes guessed for them: `syaddImport`,
    `guessNicePrefix`, `isPrefixUnique`. */
module ImportLists {
  import opened Seqs

  datatype Entry = Entry(module_: string, prefix: string)

  // ---------- strings as C sees them ----------

  /** `strcmp(a, b) < 0`. */
  predicate Less(a: string, b: string) {
    b != "" && (a == "" || a[0] < b[0] || (a[0] == b[0] && Less(a[1..], b[1..])))
  }

  /** `strcmp`: negative, zero or positive. */
  function Strcmp(a: string, b: string): int {
    if a == b then 0 else if Less(a, b) then -1 else 1
  }

  lemma {:induction false} LessTotal(a: string, b: string)
    ensures Less(a, b) || a == b || Less(b, a)
    ensures !Less(a, a) && !(Less(a, b) && Less(b, a))
  {
    if a != "" && b != "" {
      LessTotal(a[1..], b[1..]);
      assert a == [a[0]] + a[1..] && b == [b[0]] + b[1..];
    }
    if a != "" {
      LessTotal(a[1..], a[1..]);
    }
  }

  lemma {:induction false} LessTransitive(a: string, b: string, c: string)
    requires Less(a, b) && Less(b, c)
    ensures Less(a, c)
  {
    if a != "" && a[0] == b[0] == c[0] {
      LessTransitive(a[1..], b[1..], c[1..]);
    }
  }

  /** The two names agree on the first `k` characters, and there `a` ends or has the smaller one. */
  ghost predicate DecidedAt(a: string, b: string, k: nat) {
    k <= |a| && k < |b| && a[..k] == b[..k] && (k == |a| || a[k] < b[k])
  }

  lemma DecidedAtOnce(a: string, b: string, k: nat)
    requires a == "" || b == "" || a[0] != b[0]
    ensures DecidedAt(a, b, k) <==> k == 0 && b != "" && (a == "" || a[0] < b[0])
  {
    if 0 < k <= |a| && k < |b| {
      assert a[..k][0] == a[0] && b[..k][0] == b[0];
    }
  }

  lemma DecidedNext(a: string, b: string, k: nat)
    requires a != "" && b != "" && a[0] == b[0]
    ensures DecidedAt(a, b, k + 1) <==> DecidedAt(a[1..], b[1..], k)
  {
    if k < |a| && k + 1 < |b| {
      assert a[..k + 1] == [a[0]] + a[1..][..k] && b[..k + 1] == [b[0]] + b[1..][..k];
    }
  }

  /** The order is decided at the first character that differs; a proper beginning comes first. */
  lemma {:induction false} LessExactly(a: string, b: string)
    ensures Less(a, b) <==> exists k: nat :: DecidedAt(a, b, k)
  {
    if a == "" || b == "" || a[0] != b[0] {
      forall k: nat
        ensures DecidedAt(a, b, k) <==> k == 0 && b != "" && (a == "" || a[0] < b[0])
      {
        DecidedAtOnce(a, b, k);
      }
      assert DecidedAt(a, b, 0) <==> b != "" && (a == "" || a[0] < b[0]);
    } else {
      LessExactly(a[1..], b[1..]);
      forall k: nat
        ensures DecidedAt(a, b, k + 1) <==> DecidedAt(a[1..], b[1..], k)
      {
        DecidedNext(a, b, k);
      }
      assert !DecidedAt(a, b, 0);
      if k: nat :| DecidedAt(a, b, k) {
        assert DecidedAt(a[1..], b[1..], k - 1) <==> DecidedAt(a, b, k - 1 + 1);
      }
      if k: nat :| DecidedAt(a[1..], b[1..], k) {
        assert DecidedAt(a, b, k + 1);
      }
    }
  }

  function LowerChar(c: char): char {
    if 'A' <= c <= 'Z' then ((c as int) + 32) as char else c
  }

  function Lower(s: string): (r: string)
    ensures |r| == |s| && forall i | 0 <= i < |s| :: r[i] == LowerChar(s[i])
  {
    seq(|s|, i requires 0 <= i < |s| => LowerChar(s[i]))
  }

  /** The C string held by a buffer: what comes before the first NUL. */
  function CString(b: seq<char>): string {
    if b == [] || b[0] == '\0' then "" else [b[0]] + CString(b[1..])
  }

  lemma {:induction false} CStringIs(b: seq<char>, n: nat)
    requires n < |b| && b[n] == '\0' && forall i | 0 <= i < n :: b[i] != '\0'
    ensures CString(b) == b[..n]
  {
    if n > 0 {
      CStringIs(b[1..], n - 1);
      assert b[..n] == [b[0]] + b[1..][..n - 1];
    }
  }

  // ---------- prefixes ----------

  /** The prefix reserved for one of the three well-known modules. */
  function Special(name: string): string {
    if name == "ietf-yang-smiv2" then "smiv2"
    else if name == "ietf-yang-types" then "yang"
    else if name == "ietf-inet-types" then "inet"
    else ""
  }

  ghost function Prefixes(list: seq<Entry>): set<string> {
    set e | e in list :: e.prefix
  }

  /** The prefix found by cutting before the second or a later hyphen, from position `i` on with `d`
      hyphens seen. */
  ghost function CutFrom(l: string, i: nat, d: nat, used: set<string>): string
    requires i <= |l|
    decreases |l| - i
  {
    if i == |l| then l
    else if l[i] == '-' then
      if d + 1 > 1 && l[..i] !in used then l[..i] else CutFrom(l, i + 1, d + 1, used)
    else CutFrom(l, i + 1, d, used)
  }

  ghost function Guess(name: string, used: set<string>): string {
    if Special(name) != "" && Special(name) !in used then Special(name)
    else CutFrom(Lower(name), 0, 0, used)
  }

  // ---------- the list as a sequence ----------

  ghost predicate Ascending(list: seq<Entry>) {
    forall i, j | 0 <= i < j < |list| :: Less(list[i].module_, list[j].module_)
  }

  ghost predicate Lists(list: seq<Entry>, name: string) {
    exists i :: 0 <= i < |list| && list[i].module_ == name
  }

  /** The first position whose module is not below `name`. */
  function Position(list: seq<Entry>, name: string): (k: nat)
    ensures k <= |list|
    ensures forall i | 0 <= i < k :: Less(list[i].module_, name)
    ensures k < |list| ==> !Less(list[k].module_, name)
  {
    if list == [] || !Less(list[0].module_, name) then 0 else Position(list[1..], name) + 1
  }

  /** The list after one call. */
  ghost function Added(list: seq<Entry>, name: string): seq<Entry> {
    var k := Position(list, name);
    if k < |list| && list[k].module_ == name then list
    else Inserted(list, k, Entry(name, Guess(name, Prefixes(list))))
  }

  ghost function AddedAll(calls: seq<string>): seq<Entry> {
    if calls == [] then [] else Added(AddedAll(calls[..|calls| - 1]), calls[|calls| - 1])
  }

  // ---------- the linked list ----------

  class ImportNode {
    const entry: Entry
    var nextPtr: ImportNode?

    constructor (e: Entry, next: ImportNode?)
      ensures entry == e && nextPtr == next
    {
      entry, nextPtr := e, next;
    }
  }

  ghost function At(nodes: seq<ImportNode>, i: nat): ImportNode? {
    if i < |nodes| then nodes[i] else null
  }

  ghost function Entries(nodes: seq<ImportNode>): (es: seq<Entry>)
    ensures |es| == |nodes| && forall i | 0 <= i < |nodes| :: es[i] == nodes[i].entry
  {
    seq(|nodes|, i requires 0 <= i < |nodes| => nodes[i].entry)
  }

  lemma EntriesInserted(nodes: seq<ImportNode>, k: nat, node: ImportNode)
    requires k <= |nodes|
    ensures Entries(Inserted(nodes, k, node)) == Inserted(Entries(nodes), k, node.entry)
  {
  }

  lemma EntriesWith(nodes: seq<ImportNode>, k: nat)
    ensures k < |nodes| ==> Entries(nodes)[k] == nodes[k].entry && nodes[k].entry in Entries(nodes)
  {
  }

  lemma {:induction false} PositionIs(list: seq<Entry>, name: string, k: nat)
    requires k <= |list| && forall i | 0 <= i < k :: Less(list[i].module_, name)
    requires k < |list| ==> !Less(list[k].module_, name)
    ensures Position(list, name) == k
  {
  }

  class ImportList {
    var importList: ImportNode?
    ghost var nodes: seq<ImportNode>

    constructor ()
      ensures Valid() && nodes == []
    {
      importList, nodes := null, [];
    }

    ghost predicate Valid()
      reads this, nodes`nextPtr
    {
      && importList == At(nodes, 0)
      && (forall i {:trigger nodes[i].nextPtr} | 0 <= i < |nodes| :: nodes[i].nextPtr == At(nodes, i + 1))
      && Distinct(nodes)
    }

    method IsPrefixUnique(prefix: string) returns (unique: bool)
      requires Valid()
      ensures unique <==> prefix !in Prefixes(Entries(nodes))
    {
      ghost var k: nat := 0;
      var import_ := importList;
      while import_ != null
        invariant k <= |nodes| && import_ == At(nodes, k)
        invariant forall i | 0 <= i < k :: nodes[i].entry.prefix != prefix
        decreases |nodes| - k
      {
        if import_.entry.prefix == prefix {
          assert Entries(nodes)[k].prefix == prefix;
          return false;
        }
        import_, k := import_.nextPtr, k + 1;
      }
      unique := true;
    }

    method LowerInPlace(buf: array<char>, name: string)
      requires buf.Length == |name| + 1 && buf[..|name|] == name
      modifies buf
      ensures buf[..|name|] == Lower(name) && buf[|name|] == old(buf[|name|])
    {
      var i := 0;
      while i < |name|
        invariant 0 <= i <= |name|
        invariant forall j | 0 <= j < |name| :: buf[j] == if j < i then LowerChar(name[j]) else name[j]
        invariant buf[|name|] == old(buf[|name|])
      {
        assert buf[i] == name[i];
        buf[i] := LowerChar(buf[i]);
        i := i + 1;
      }
    }

    method CutBuffer(buf: array<char>, n: nat, ghost l: string) returns (prefix: string)
      requires Valid() && buf.Length == n + 1 && buf[..n] == l && buf[n] == '\0' && '\0' !in l
      modifies buf
      ensures prefix == CutFrom(l, 0, 0, Prefixes(Entries(nodes)))
    {
      var i: nat, d: nat := 0, 0;
      assert forall j | 0 <= j < n :: buf[j] == buf[..n][j];
      while buf[i] != '\0'
        invariant i <= n && buf[..n] == l && buf[n] == '\0' && forall j | 0 <= j < n :: buf[j] == l[j] != '\0'
        invariant CutFrom(l, i, d, Prefixes(Entries(nodes))) == CutFrom(l, 0, 0, Prefixes(Entries(nodes)))
        decreases n - i
      {
        assert buf[i] == l[i];
        if buf[i] == '-' {
          d := d + 1;
          if d > 1 {
            buf[i] := '\0';
            CStringIs(buf[..], i);
            assert CString(buf[..]) == l[..i];
            var unique := IsPrefixUnique(CString(buf[..]));
            if unique {
              return CString(buf[..]);
            }
            buf[i] := '-';
            assert buf[..n] == l;
          }
        }
        i := i + 1;
      }
      CStringIs(buf[..], n);
      prefix := CString(buf[..]);
    }

    /** `guessNicePrefix`: a reserved prefix, or the lower-cased name, cut in the buffer before a
        hyphen when that gives a prefix not used yet. */
    method GuessNicePrefix(name: string) returns (prefix: string)
      requires Valid() && '\0' !in name
      ensures prefix == Guess(name, Prefixes(Entries(nodes)))
    {
      if Special(name) != "" {
        var unique := IsPrefixUnique(Special(name));
        if unique {
          return Special(name);
        }
      }
      var buf := new char[|name| + 1](i => if 0 <= i < |name| then name[i] else '\0');
      LowerInPlace(buf, name);
      ghost var used := Prefixes(Entries(nodes));
      ghost var l := Lower(name);
      prefix := CutBuffer(buf, |name|, l);
    }

    /** The link where the walk over the list stops: the one after `prev`, or the head. */
    method FindLink(name: string) returns (prev: ImportNode?, ghost k: nat)
      requires Valid()
      ensures k == Position(Entries(nodes), name)
      ensures prev == if Position(Entries(nodes), name) == 0 then null else nodes[Position(Entries(nodes), name) - 1]
    {
      prev, k := null, 0;
      var import_ := importList;
      while import_ != null
        invariant k <= |nodes| && import_ == At(nodes, k) && prev == if k == 0 then null else nodes[k - 1]
        invariant forall i | 0 <= i < k :: Less(nodes[i].entry.module_, name)
        decreases |nodes| - k
      {
        LessTotal(import_.entry.module_, name);
        var c := Strcmp(import_.entry.module_, name);
        if c >= 0 {
          break;
        }
        prev, import_, k := import_, import_.nextPtr, k + 1;
      }
      PositionIs(Entries(nodes), name, k);
    }

    method LinkIn(prev: ImportNode?, node: ImportNode, ghost k: nat)
      requires Valid() && k <= |nodes| && node !in nodes && node.nextPtr == At(nodes, k)
      requires prev == if k == 0 then null else nodes[k - 1]
      modifies this, nodes`nextPtr
      ensures Valid() && nodes == Inserted(old(nodes), k, node)
    {
      InsertedDistinct(nodes, k, node);
      hide Distinct;
      ghost var s := nodes;
      if prev == null {
        importList := node;
      } else {
        prev.nextPtr := node;
      }
      assert forall i {:trigger s[i].nextPtr} | 0 <= i < |s| && i != k - 1 :: s[i].nextPtr == At(s, i + 1);
      nodes := Inserted(s, k, node);
      forall i | 0 <= i < |nodes|
        ensures nodes[i].nextPtr == At(nodes, i + 1)
      {
        assert i < k - 1 ==> s[i].nextPtr == s[i + 1];
        assert i > k ==> s[i - 1].nextPtr == At(s, i);
      }
    }

    /** `syaddImport`: the entry of the module, which is added in its place when it is missing. */
    method AddImport(name: string) returns (entry: Entry)
      requires Valid() && '\0' !in name
      modifies this, nodes`nextPtr
      ensures Valid() && Entries(nodes) == Added(old(Entries(nodes)), name)
      ensures entry in Entries(nodes) && entry.module_ == name
    {
      hide Position, Guess, Prefixes, Less;
      var prev, k := FindLink(name);
      EntriesWith(nodes, k);
      var next := if prev == null then importList else prev.nextPtr;
      if next != null && next.entry.module_ == name {
        assert next.entry == Entries(nodes)[k];
        return next.entry;
      }
      var prefix := GuessNicePrefix(name);
      var node := new ImportNode(Entry(name, prefix), next);
      entry := node.entry;
      EntriesInserted(nodes, k, node);
      LinkIn(prev, node, k);
      assert Entries(nodes)[k] == entry;
    }
  }

  // ---------- what a guessed prefix can be ----------

  /** How many hyphens come before position `i`. */
  function Hyphens(l: string, i: nat): nat
    requires i <= |l|
  {
    if i == 0 then 0 else Hyphens(l, i - 1) + (if l[i - 1] == '-' then 1 else 0)
  }

  /** Position of a second or later hyphen. */
  predicate IsCut(l: string, i: nat) {
    i < |l| && l[i] == '-' && Hyphens(l, i) >= 1
  }

  lemma {:induction false} CutFromIs(l: string, i: nat, d: nat, used: set<string>)
    requires i <= |l| && d == Hyphens(l, i)
    ensures var p := CutFrom(l, i, d, used);
      && (p == l || exists j: nat :: i <= j && IsCut(l, j) && p == l[..j])
      && (p in used <==> l in used && forall j: nat | i <= j && IsCut(l, j) :: l[..j] in used)
    decreases |l| - i
  {
    if i < |l| {
      var d' := if l[i] == '-' then d + 1 else d;
      assert Hyphens(l, i + 1) == d';
      CutFromIs(l, i + 1, d', used);
      assert IsCut(l, i) <==> l[i] == '-' && d + 1 > 1;
    }
  }

  /** Every prefix that could be guessed for the module is taken. */
  ghost predicate AllTaken(name: string, used: set<string>) {
    && (Special(name) != "" ==> Special(name) in used)
    && Lower(name) in used
    && forall j: nat | IsCut(Lower(name), j) :: Lower(name)[..j] in used
  }

  /** The guessed prefix is one already in use exactly when all candidates are. */
  lemma GuessTaken(name: string, used: set<string>)
    ensures Guess(name, used) in used <==> AllTaken(name, used)
  {
    CutFromIs(Lower(name), 0, 0, used);
  }

  /** The first cut from position `i` on that gives a free prefix. */
  ghost predicate FirstFreeCut(l: string, i: nat, used: set<string>, j: nat) {
    && i <= j && IsCut(l, j) && l[..j] !in used
    && forall k: nat | i <= k < j && IsCut(l, k) :: l[..k] in used
  }

  lemma {:induction false} CutFromFirst(l: string, i: nat, d: nat, used: set<string>)
    requires i <= |l| && d == Hyphens(l, i)
    ensures forall j: nat | FirstFreeCut(l, i, used, j) :: CutFrom(l, i, d, used) == l[..j]
    ensures (forall j: nat | i <= j && IsCut(l, j) :: l[..j] in used) ==> CutFrom(l, i, d, used) == l
    decreases |l| - i
  {
    if i < |l| {
      var d' := if l[i] == '-' then d + 1 else d;
      assert Hyphens(l, i + 1) == d';
      CutFromFirst(l, i + 1, d', used);
      assert IsCut(l, i) <==> l[i] == '-' && d + 1 > 1;
      forall j: nat | FirstFreeCut(l, i, used, j)
        ensures CutFrom(l, i, d, used) == l[..j]
      {
        assert j == i || FirstFreeCut(l, i + 1, used, j);
      }
    }
  }

  /** Which prefix is guessed: "smiv2", "yang" or "inet" for the three well-known modules while it is free;
      otherwise the lower-cased name cut before the first of its second and later hyphens that leaves a free
      prefix, and the whole of it when none does. */
  lemma GuessExactly(name: string, used: set<string>)
    ensures name == "ietf-yang-smiv2" && "smiv2" !in used ==> Guess(name, used) == "smiv2"
    ensures name == "ietf-yang-types" && "yang" !in used ==> Guess(name, used) == "yang"
    ensures name == "ietf-inet-types" && "inet" !in used ==> Guess(name, used) == "inet"
    ensures (name == "ietf-yang-smiv2" ==> "smiv2" in used) && (name == "ietf-yang-types" ==> "yang" in used)
        && (name == "ietf-inet-types" ==> "inet" in used)
      ==> && (forall j: nat | FirstFreeCut(Lower(name), 0, used, j) :: Guess(name, used) == Lower(name)[..j])
          && ((forall j: nat | IsCut(Lower(name), j) :: Lower(name)[..j] in used) ==> Guess(name, used) == Lower(name))
  {
    hide IsCut, FirstFreeCut;
    CutFromFirst(Lower(name), 0, 0, used);
  }

  /** Lower case: no upper-case letter is left, and only those were changed, each to its own small one. */
  lemma LowerIs(name: string)
    ensures |Lower(name)| == |name|
    ensures forall i | 0 <= i < |name| :: !('A' <= Lower(name)[i] <= 'Z')
    ensures forall i | 0 <= i < |name| ::
      Lower(name)[i] == name[i]
      || ('A' <= name[i] <= 'Z' && Lower(name)[i] as int - 'a' as int == name[i] as int - 'A' as int)
  {
  }

  /** The prefix can have been guessed for the module. */
  ghost predicate Origin(name: string, prefix: string) {
    || (Special(name) != "" && prefix == Special(name))
    || prefix == Lower(name)
    || exists j: nat :: IsCut(Lower(name), j) && prefix == Lower(name)[..j]
  }

  lemma GuessOrigin(name: string, used: set<string>)
    ensures Origin(name, Guess(name, used))
  {
    CutFromIs(Lower(name), 0, 0, used);
  }

  // ---------- one call ----------

  lemma AddedAscending(list: seq<Entry>, name: string)
    requires Ascending(list)
    ensures Ascending(Added(list, name))
  {
    var k := Position(list, name);
    if k < |list| {
      LessTotal(list[k].module_, name);
      forall j | k < j < |list| && Less(name, list[k].module_)
        ensures Less(name, list[j].module_)
      {
        LessTransitive(name, list[k].module_, list[j].module_);
      }
    }
    hide Less, Position, Guess;
    assert Ascending(Added(list, name));
  }

  lemma AddedModules(list: seq<Entry>, name: string, x: string)
    ensures Lists(Added(list, name), x) <==> Lists(list, x) || x == name
    ensures forall e | e in list :: e in Added(list, name)
  {
    hide Guess, Position;
    var k, r := Position(list, name), Added(list, name);
    if k < |list| && list[k].module_ == name {
      assert Lists(list, name);
    } else {
      assert forall i | 0 <= i < |list| :: list[i] == r[if i < k then i else i + 1];
      assert r[k].module_ == name;
    }
  }

  ghost predicate DistinctPrefixes(list: seq<Entry>) {
    forall i, j | 0 <= i < j < |list| :: list[i].prefix != list[j].prefix
  }

  /** Adding a new module keeps the prefixes distinct exactly when some candidate for it is free. */
  lemma AddedDistinct(list: seq<Entry>, name: string)
    requires Ascending(list) && DistinctPrefixes(list) && !Lists(list, name)
    ensures DistinctPrefixes(Added(list, name)) <==> !AllTaken(name, Prefixes(list))
  {
    hide AllTaken, Less, Position, Guess;
    GuessTaken(name, Prefixes(list));
    var k, p := Position(list, name), Guess(name, Prefixes(list));
    var r := Added(list, name);
    assert k < |list| ==> list[k].module_ != name;
    if p in Prefixes(list) {
      var i :| 0 <= i < |list| && list[i].prefix == p;
      assert r[if i < k then i else i + 1].prefix == r[k].prefix;
    } else {
      assert forall i | 0 <= i < |list| :: list[i].prefix in Prefixes(list);
    }
  }

  // ---------- all sequences of calls ----------

  /** After any sequence of calls the list is strictly ascending and holds exactly the modules asked for. */
  lemma {:induction false} ListIsSet(calls: seq<string>)
    ensures Ascending(AddedAll(calls))
    ensures forall x :: Lists(AddedAll(calls), x) <==> x in calls
  {
    if calls != [] {
      hide Ascending, Lists, Added;
      var n := |calls| - 1;
      ListIsSet(calls[..n]);
      AddedAscending(AddedAll(calls[..n]), calls[n]);
      forall x
        ensures Lists(AddedAll(calls), x) <==> x in calls
      {
        AddedModules(AddedAll(calls[..n]), calls[n], x);
        assert calls == calls[..n] + [calls[n]];
      }
    } else {
      assert AddedAll(calls) == [];
    }
  }

  /** No later call changes an entry, and with it an assigned prefix. */
  lemma {:induction false} EntriesStay(calls: seq<string>, k: nat)
    requires k <= |calls|
    ensures forall e | e in AddedAll(calls[..k]) :: e in AddedAll(calls)
  {
    if k == |calls| {
      assert calls[..k] == calls;
    } else {
      var n := |calls| - 1;
      assert calls[..n][..k] == calls[..k];
      EntriesStay(calls[..n], k);
      AddedModules(AddedAll(calls[..n]), calls[n], "");
      assert AddedAll(calls) == Added(AddedAll(calls[..n]), calls[n]);
      hide Added, AddedAll;
      assert forall e | e in AddedAll(calls[..k]) :: e in AddedAll(calls[..n]);
    }
  }

  ghost predicate NamesApart(m: string, m': string) {
    Lower(m) != Lower(m') && forall j: nat | IsCut(Lower(m'), j) :: Lower(m) != Lower(m')[..j]
  }

  /** No module's lower-cased name is a reserved prefix, another's lower-cased name, or another's
      lower-cased name cut before its second or a later hyphen. */
  ghost predicate NoClash(calls: seq<string>) {
    && (forall m | m in calls :: Lower(m) != "smiv2" && Lower(m) != "yang" && Lower(m) != "inet")
    && (forall m, m' | m in calls && m' in calls && m != m' :: NamesApart(m, m'))
  }

  ghost predicate FromOrigins(list: seq<Entry>) {
    forall i | 0 <= i < |list| :: Origin(list[i].module_, list[i].prefix)
  }

  lemma AddedFromOrigins(list: seq<Entry>, name: string)
    requires FromOrigins(list)
    ensures FromOrigins(Added(list, name))
  {
    hide Origin, Guess, Position;
    GuessOrigin(name, Prefixes(list));
  }

  lemma {:induction false} AllFromOrigins(calls: seq<string>)
    ensures FromOrigins(AddedAll(calls))
  {
    if calls == [] {
      assert AddedAll(calls) == [];
    } else {
      hide Added, FromOrigins;
      AllFromOrigins(calls[..|calls| - 1]);
      AddedFromOrigins(AddedAll(calls[..|calls| - 1]), calls[|calls| - 1]);
    }
  }

  /** The lower-cased name of a new module is free. */
  lemma LowerIsFree(list: seq<Entry>, name: string)
    requires FromOrigins(list) && !Lists(list, name)
    requires Lower(name) != "smiv2" && Lower(name) != "yang" && Lower(name) != "inet"
    requires forall i | 0 <= i < |list| :: NamesApart(name, list[i].module_)
    ensures Lower(name) !in Prefixes(list)
  {
  }

  lemma PositionOfListed(list: seq<Entry>, name: string)
    requires Ascending(list) && Lists(list, name)
    ensures Added(list, name) == list
  {
    var i :| 0 <= i < |list| && list[i].module_ == name;
    LessTotal(name, name);
    forall j | 0 <= j < i
      ensures Less(list[j].module_, name)
    {
    }
    PositionIs(list, name, i);
  }

  /** Without a clash of names the assigned prefixes are pairwise distinct, in whatever order and
      how often the modules are asked for. */
  lemma {:induction false} PrefixesDistinct(calls: seq<string>)
    requires NoClash(calls)
    ensures DistinctPrefixes(AddedAll(calls))
  {
    if calls == [] {
      assert AddedAll(calls) == [];
    } else {
      hide Ascending, DistinctPrefixes, FromOrigins, NamesApart, Lower, Special, Position;
      var n := |calls| - 1;
      var list, name := AddedAll(calls[..n]), calls[n];
      assert forall m | m in calls[..n] :: m in calls;
      PrefixesDistinct(calls[..n]);
      ListIsSet(calls[..n]);
      AllFromOrigins(calls[..n]);
      if Lists(list, name) {
        PositionOfListed(list, name);
      } else {
        assert name in calls;
        forall i | 0 <= i < |list|
          ensures NamesApart(name, list[i].module_)
        {
          assert Lists(list, list[i].module_);
        }
        LowerIsFree(list, name);
        AddedDistinct(list, name);
      }
    }
  }

  /** Every module had a free candidate when it was first asked for. */
  ghost predicate AlwaysFree(calls: seq<string>) {
    forall n | 0 <= n < |calls| && !Lists(AddedAll(calls[..n]), calls[n]) ::
      !AllTaken(calls[n], Prefixes(AddedAll(calls[..n])))
  }

  lemma AlwaysFreeStep(calls: seq<string>)
    requires calls != []
    ensures var n := |calls| - 1; var list := AddedAll(calls[..n]);
      AlwaysFree(calls) <==> AlwaysFree(calls[..n]) && (Lists(list, calls[n]) || !AllTaken(calls[n], Prefixes(list)))
  {
    hide Lists, AllTaken, AddedAll;
    var n := |calls| - 1;
    assert forall i | 0 <= i < n :: calls[..n][..i] == calls[..i] && calls[..n][i] == calls[i];
  }

  lemma StillClashing(list: seq<Entry>, name: string)
    requires !DistinctPrefixes(list)
    ensures !DistinctPrefixes(Added(list, name))
  {
    hide Guess, Position;
    var i, j :| 0 <= i < j < |list| && list[i].prefix == list[j].prefix;
    var k, r := Position(list, name), Added(list, name);
    if r != list {
      assert r[if i < k then i else i + 1] == list[i] && r[if j < k then j else j + 1] == list[j];
    }
  }

  /** The prefixes are pairwise distinct exactly when every module had a free candidate when it was
      first asked for. */
  lemma {:induction false} PrefixesDistinctExactly(calls: seq<string>)
    ensures DistinctPrefixes(AddedAll(calls)) <==> AlwaysFree(calls)
  {
    if calls == [] {
      assert AddedAll(calls) == [];
    } else {
      hide Ascending, DistinctPrefixes, Added, AllTaken, AlwaysFree;
      var n := |calls| - 1;
      var list, name := AddedAll(calls[..n]), calls[n];
      PrefixesDistinctExactly(calls[..n]);
      AlwaysFreeStep(calls);
      ListIsSet(calls[..n]);
      if Lists(list, name) {
        PositionOfListed(list, name);
      } else if DistinctPrefixes(list) {
        AddedDistinct(list, name);
      } else {
        StillClashing(list, name);
      }
    }
  }

  /** Two names that differ only in case get one prefix. */
  lemma CaseClash()
    ensures !DistinctPrefixes(AddedAll(["A"] + ["a"]))
  {
    var one := AddedAll(["A"]);
    assert ["A"][..0] == [] && (["A"] + ["a"])[..1] == ["A"];
    assert Lower("A") == "a" == Lower("a");
    assert AddedAll([]) == [];
    assert one == [Entry("A", "a")] by {
      assert CutFrom("a", 1, 0, {}) == "a" && CutFrom("a", 0, 0, {}) == "a";
      assert Prefixes([]) == {};
    }
    assert one[0].prefix in Prefixes(one);
    assert !Lists(one, "a");
    assert forall j: nat :: !IsCut("a", j);
    ListIsSet(["A"]);
    AddedDistinct(one, "a");
  }
}
