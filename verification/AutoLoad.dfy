/** Loading MIB modules on demand during a walk: `LoadBestModule`, the lists it rebuilds, and the
    restart loop that calls it for each variable binding. */
module AutoLoad {
  import opened Texts

  datatype Policy = LoadAll | LoadDefault | LoadNone

  datatype Answer = No | NoToAll | Yes | YesToAll

  /** The automatic-loading preference: without asking, ask first, or off. */
  datatype Preference = Silent | Ask | Off

  // ---------- the choice ----------

  /** The root is a string prefix of the identifier, and longer than the best so far. */
  predicate Better(root: string, oid: string, best: nat) {
    root != "" && root <= oid && |root| > best
  }

  /** The first better root of a module, which ends the look at it. */
  function FirstBetter(mib: seq<string>, oid: string, best: nat, k: nat): (r: nat)
    requires k <= |mib|
    ensures k <= r <= |mib| && (r < |mib| ==> Better(mib[r], oid, best))
    ensures forall i | k <= i < r :: !Better(mib[i], oid, best)
    decreases |mib| - k
  {
    if k == |mib| || Better(mib[k], oid, best) then k else FirstBetter(mib, oid, best, k + 1)
  }

  datatype Choice = Choice(file: string, root: string)

  /** Every known module is a file name followed by its root identifiers. */
  ghost predicate Modules(total: seq<seq<string>>) {
    forall i | 0 <= i < |total| :: total[i] != [] && total[i][0] != ""
  }

  /** The best choice among the first `n` modules. */
  function Best(total: seq<seq<string>>, unloaded: seq<string>, oid: string, n: nat): Choice
    requires n <= |total| && Modules(total)
  {
    if n == 0 then Choice("", "")
    else
      var b, mib := Best(total, unloaded, oid, n - 1), total[n - 1];
      var k := FirstBetter(mib, oid, |b.root|, 0);
      if k < |mib| && mib[0] in unloaded then Choice(mib[0], mib[k]) else b
  }

  /** The files that are not loaded. */
  function NotLoaded(total: seq<seq<string>>, loaded: set<string>): (r: seq<string>)
    requires Modules(total)
  {
    if total == [] then []
    else
      assert Modules(total[1..]);
      (if total[0][0] in loaded then [] else [total[0][0]]) + NotLoaded(total[1..], loaded)
  }

  lemma {:induction false} NotLoadedMembers(total: seq<seq<string>>, loaded: set<string>, x: string)
    requires Modules(total)
    ensures x in NotLoaded(total, loaded) <==> x !in loaded && exists i :: 0 <= i < |total| && total[i][0] == x
  {
    if total != [] {
      assert Modules(total[1..]);
      NotLoadedMembers(total[1..], loaded, x);
      if exists i :: 0 <= i < |total| && total[i][0] == x {
        var i :| 0 <= i < |total| && total[i][0] == x;
        assert i > 0 ==> total[1..][i - 1][0] == x;
      }
      if exists i :: 0 <= i < |total[1..]| && total[1..][i][0] == x {
        var i :| 0 <= i < |total[1..]| && total[1..][i][0] == x;
        assert total[i + 1][0] == x;
      }
    }
  }

  /** What the chosen module is: an unloaded one with a root that is a string prefix of the identifier,
      and no shorter than the first matching root of any unloaded module. */
  ghost predicate GoodChoice(total: seq<seq<string>>, unloaded: seq<string>, oid: string, n: nat, c: Choice)
    requires n <= |total| && Modules(total)
  {
    && (c.file != "" ==>
          && c.file in unloaded && c.root != "" && c.root <= oid
          && exists i, k :: 0 <= i < n && 0 <= k < |total[i]| && total[i][0] == c.file && total[i][k] == c.root)
    && (c.file == "" ==> c.root == "")
    && (forall i | 0 <= i < n && total[i][0] in unloaded ::
          var k := FirstBetter(total[i], oid, 0, 0); k < |total[i]| ==> |total[i][k]| <= |c.root|)
  }

  lemma {:induction false} BestIsGood(total: seq<seq<string>>, unloaded: seq<string>, oid: string, n: nat)
    requires n <= |total| && Modules(total)
    ensures GoodChoice(total, unloaded, oid, n, Best(total, unloaded, oid, n))
  {
    if n > 0 {
      BestIsGood(total, unloaded, oid, n - 1);
      var b, mib := Best(total, unloaded, oid, n - 1), total[n - 1];
      var k := FirstBetter(mib, oid, |b.root|, 0);
      var f := FirstBetter(mib, oid, 0, 0);
      assert f < |mib| && f < k ==> |mib[f]| <= |b.root|;
      assert k < |mib| ==> Better(mib[k], oid, 0);
      var c := Best(total, unloaded, oid, n);
      if c.file != "" && c == b {
        var i, j :| 0 <= i < n - 1 && 0 <= j < |total[i]| && total[i][0] == c.file && total[i][j] == c.root;
        assert total[i][0] == c.file && total[i][j] == c.root;
      } else if c.file != "" {
        assert total[n - 1][0] == c.file && total[n - 1][k] == c.root;
      }
    }
  }

  ghost predicate Matches(root: string, oid: string) {
    root != "" && root <= oid
  }

  /** Root `k` of module `i` is the choice among the first `n` modules: of an earlier unloaded module the
      first matching root is shorter; of its own module it is the first that is longer than what was found
      before; and of a later unloaded module no matching root is longer. */
  ghost predicate ChosenAt(total: seq<seq<string>>, unloaded: seq<string>, oid: string, n: nat, i: nat, k: nat)
    requires n <= |total| && Modules(total)
  {
    && i < n && k < |total[i]| && total[i][0] in unloaded && Matches(total[i][k], oid)
    && (forall j | 0 <= j < i && total[j][0] in unloaded ::
         var f := FirstBetter(total[j], oid, 0, 0); f < |total[j]| ==> |total[j][f]| < |total[i][k]|)
    && |Best(total, unloaded, oid, i).root| < |total[i][k]|
    && (forall m | 0 <= m < k && Matches(total[i][m], oid) ::
         |total[i][m]| <= |Best(total, unloaded, oid, i).root|)
    && (forall j, m | i < j < n && total[j][0] in unloaded && 0 <= m < |total[j]| && Matches(total[j][m], oid) ::
         |total[j][m]| <= |total[i][k]|)
  }

  lemma {:induction false} LaterModule(total: seq<seq<string>>, unloaded: seq<string>, oid: string,
                                       n: nat, i: nat, k: nat)
    requires 0 < n <= |total| && Modules(total) && ChosenAt(total, unloaded, oid, n - 1, i, k)
    requires var mib := total[n - 1];
      FirstBetter(mib, oid, |total[i][k]|, 0) == |mib| || mib[0] !in unloaded
    ensures ChosenAt(total, unloaded, oid, n, i, k)
  {
    hide Best;
    var mib := total[n - 1];
    forall m | 0 <= m < |mib| && Matches(mib[m], oid) && mib[0] in unloaded
      ensures |mib[m]| <= |total[i][k]|
    {
      assert !Better(mib[m], oid, |total[i][k]|);
    }
  }

  /** Which module and which of its roots is chosen, ties included. */
  lemma {:induction false} BestExactly(total: seq<seq<string>>, unloaded: seq<string>, oid: string, n: nat)
    requires n <= |total| && Modules(total)
    ensures var c := Best(total, unloaded, oid, n);
      c.file != "" ==>
        exists i: nat, k: nat :: ChosenAt(total, unloaded, oid, n, i, k) && c == Choice(total[i][0], total[i][k])
  {
    if n > 0 {
      BestExactly(total, unloaded, oid, n - 1);
      BestIsGood(total, unloaded, oid, n - 1);
      var b, mib := Best(total, unloaded, oid, n - 1), total[n - 1];
      var r := FirstBetter(mib, oid, |b.root|, 0);
      if r < |mib| && mib[0] in unloaded {
        assert ChosenAt(total, unloaded, oid, n, n - 1, r);
      } else if b.file != "" {
        var i: nat, k: nat :| ChosenAt(total, unloaded, oid, n - 1, i, k) && b == Choice(total[i][0], total[i][k]);
        LaterModule(total, unloaded, oid, n, i, k);
      }
    }
  }

  /** `from` says which of the known modules each of these files is, ascending. */
  ghost predicate FilesInOrder(total: seq<seq<string>>, files: seq<string>, from: seq<nat>)
    requires Modules(total)
  {
    && |from| == |files|
    && (forall i, j | 0 <= i < j < |from| :: from[i] < from[j])
    && forall i | 0 <= i < |from| :: from[i] < |total| && files[i] == total[from[i]][0]
  }

  lemma FilesInOrderNext(total: seq<seq<string>>, files: seq<string>, from: seq<nat>) returns (shifted: seq<nat>)
    requires total != [] && Modules(total) && Modules(total[1..]) && FilesInOrder(total[1..], files, from)
    ensures FilesInOrder(total, files, shifted) && FilesInOrder(total, [total[0][0]] + files, [0] + shifted)
  {
    shifted := seq(|from|, i requires 0 <= i < |from| => from[i] + 1);
    forall i | 0 <= i < |from|
      ensures shifted[i] < |total| && files[i] == total[shifted[i]][0]
    {
      assert total[1..][from[i]] == total[from[i] + 1];
    }
  }

  /** The unloaded list keeps the order of the known modules. */
  lemma {:induction false} NotLoadedInOrder(total: seq<seq<string>>, loaded: set<string>) returns (from: seq<nat>)
    requires Modules(total)
    ensures FilesInOrder(total, NotLoaded(total, loaded), from)
  {
    if total == [] {
      from := [];
    } else {
      assert Modules(total[1..]);
      var rest := NotLoadedInOrder(total[1..], loaded);
      var shifted := FilesInOrderNext(total, NotLoaded(total[1..], loaded), rest);
      from := if total[0][0] in loaded then shifted else [0] + shifted;
    }
  }

  lemma {:induction false} NotLoadedFrom(total: seq<seq<string>>, loaded: set<string>, i: nat)
    requires Modules(total) && i <= |total|
    ensures NotLoaded(total[i..], loaded) == if i == |total| then []
      else (if total[i][0] in loaded then [] else [total[i][0]]) + NotLoaded(total[i + 1..], loaded)
  {
  }

  // ---------- the user's say ----------

  /** Whether a module that was found may be loaded: by the preference, the policy given by earlier
      answers, and, where these leave it open, the answer now. */
  predicate Consents(preference: Preference, policy: Policy, answer: Answer) {
    && !preference.Off? && !policy.LoadNone?
    && (preference.Ask? && !policy.LoadAll? ==> answer.Yes? || answer.YesToAll?)
  }

  /** An answer for all modules is remembered, if the question was asked. */
  function NextPolicy(preference: Preference, policy: Policy, answer: Answer, found: bool): Policy {
    if !found || !preference.Ask? || !policy.LoadDefault? then policy
    else if answer.NoToAll? then LoadNone
    else if answer.YesToAll? then LoadAll
    else policy
  }

  /** What the loader remembers between two calls. */
  datatype Loader = Loader(wanted: seq<string>, policy: Policy)

  /** One call of the loader: its new state, and the file it returns. */
  function Call(total: seq<seq<string>>, loadedBy: seq<string> -> set<string>, preference: Preference,
                l: Loader, oid: string, answer: Answer): (Loader, string)
    requires Modules(total)
  {
    var best := Best(total, NotLoaded(total, loadedBy(l.wanted)), oid, |total|).file;
    var file := if Consents(preference, l.policy, answer) then best else "";
    (Loader(if file == "" then l.wanted else l.wanted + [file],
            NextPolicy(preference, l.policy, answer, best != "")),
     file)
  }

  /** The state after several calls. */
  function Calls(total: seq<seq<string>>, loadedBy: seq<string> -> set<string>, preference: Preference,
                 l: Loader, calls: seq<(string, Answer)>): Loader
    requires Modules(total)
  {
    if calls == [] then l
    else
      var n := |calls| - 1;
      Call(total, loadedBy, preference, Calls(total, loadedBy, preference, l, calls[..n]), calls[n].0, calls[n].1).0
  }

  predicate LoadingOff(preference: Preference, policy: Policy) {
    preference.Off? || policy.LoadNone?
  }

  predicate Asks(preference: Preference, policy: Policy) {
    preference.Ask? && policy.LoadDefault?
  }

  // ---------- the restart loop as a function of the wanted modules ----------

  /** A lookup: whether a node was found, whether nothing but ".0" was left over, and whether the
      node's type is an object identifier. */
  datatype Lookup = Lookup(found: bool, exact: bool, oidTyped: bool)

  /** A binding to resolve: the known modules, which files are loaded when some modules are wanted, what
      the MIB database says with some files loaded, the name, and the value as an object identifier. */
  datatype Request = Request(total: seq<seq<string>>, loadedBy: seq<string> -> set<string>,
                             lookup: set<string> -> Lookup, oid: string, valueOid: string)

  ghost function BestFor(r: Request, w: seq<string>, oid: string): string
    requires Modules(r.total)
  {
    Best(r.total, NotLoaded(r.total, r.loadedBy(w)), oid, |r.total|).file
  }

  /** The module to load for the name. */
  ghost function ForName(r: Request, w: seq<string>): string
    requires Modules(r.total)
  {
    var node := r.lookup(r.loadedBy(w));
    if node.found && node.exact then "" else BestFor(r, w, r.oid)
  }

  /** The module to load for the value, when the name asks for none. */
  ghost function ForValue(r: Request, w: seq<string>): string
    requires Modules(r.total)
  {
    var node := r.lookup(r.loadedBy(w));
    if node.found && node.oidTyped then BestFor(r, w, r.valueOid) else ""
  }

  /** The module that the loop loads next when the user is not asked; none when the loop ends. */
  ghost function Next(r: Request, w: seq<string>): string
    requires Modules(r.total)
  {
    if ForName(r, w) != "" then ForName(r, w) else ForValue(r, w)
  }

  /** One turn of the restart loop: the name first, and the value when nothing was loaded for the name. */
  function Turn(r: Request, preference: Preference, l: Loader, answer: Answer, valueAnswer: Answer): (Loader, string)
    requires Modules(r.total)
  {
    var node := r.lookup(r.loadedBy(l.wanted));
    var first :=
      if node.found && node.exact then (l, "") else Call(r.total, r.loadedBy, preference, l, r.oid, answer);
    if first.1 == "" && node.found && node.oidTyped then
      Call(r.total, r.loadedBy, preference, first.0, r.valueOid, valueAnswer)
    else first
  }

  function Turns(r: Request, preference: Preference, l: Loader, answers: (nat, bool) -> Answer, n: nat): Loader
    requires Modules(r.total)
  {
    if n == 0 then l
    else
      var before := Turns(r, preference, l, answers, n - 1);
      Turn(r, preference, before, answers(n - 1, false), answers(n - 1, true)).0
  }

  /** The file loaded in turn `n`. */
  function TurnFile(r: Request, preference: Preference, l: Loader, answers: (nat, bool) -> Answer, n: nat): string
    requires Modules(r.total)
  {
    Turn(r, preference, Turns(r, preference, l, answers, n), answers(n, false), answers(n, true)).1
  }

  lemma {:induction false} TurnsNext(r: Request, preference: Preference, l: Loader, answers: (nat, bool) -> Answer,
                                     n: nat)
    requires Modules(r.total)
    ensures Turns(r, preference, l, answers, 0) == l
    ensures Turn(r, preference, Turns(r, preference, l, answers, n), answers(n, false), answers(n, true))
      == (Turns(r, preference, l, answers, n + 1), TurnFile(r, preference, l, answers, n))
  {
    hide Turn;
  }

  /** What an answer leaves as the policy. */
  ghost function AnswerKept(answer: Answer): Policy {
    match answer
    case NoToAll => LoadNone
    case YesToAll => LoadAll
    case No => LoadDefault
    case Yes => LoadDefault
  }

  /** A turn in which the user is asked: about the module for the name, if there is one, and, unless it is loaded
      or all loading refused, about the one for the value, if there is one. */
  lemma AskedTurn(r: Request, preference: Preference, l: Loader, answer: Answer, valueAnswer: Answer)
    requires Modules(r.total) && Asks(preference, l.policy)
    ensures var (t, file) := Turn(r, preference, l, answer, valueAnswer);
      var name, value := ForName(r, l.wanted), ForValue(r, l.wanted);
      && t.wanted == (if file == "" then l.wanted else l.wanted + [file])
      && if name != "" && answer in {Yes, YesToAll} then file == name && t.policy == AnswerKept(answer)
         else if name != "" && answer == NoToAll then file == "" && t.policy == LoadNone
         else if value == "" then file == "" && t.policy == LoadDefault
         else file == (if valueAnswer in {Yes, YesToAll} then value else "") && t.policy == AnswerKept(valueAnswer)
  {
    hide Best, NotLoaded, Modules;
  }

  /** The wanted modules after `n` turns without questions. */
  ghost function AfterRestarts(r: Request, wanted: seq<string>, n: nat): seq<string>
    requires Modules(r.total)
  {
    if n == 0 then wanted
    else
      var w := AfterRestarts(r, wanted, n - 1);
      if Next(r, w) == "" then w else w + [Next(r, w)]
  }

  lemma PlainCall(r: Request, preference: Preference, l: Loader, oid: string, answer: Answer)
    requires Modules(r.total) && !Asks(preference, l.policy)
    ensures var (t, file) := Call(r.total, r.loadedBy, preference, l, oid, answer);
      && t == Loader(if file == "" then l.wanted else l.wanted + [file], l.policy)
      && file == if LoadingOff(preference, l.policy) then "" else BestFor(r, l.wanted, oid)
  {
    hide Best, NotLoaded, Modules;
  }

  lemma UnaskedTurn(r: Request, preference: Preference, l: Loader, answer: Answer, valueAnswer: Answer)
    requires Modules(r.total) && !Asks(preference, l.policy)
    ensures var (t, file) := Turn(r, preference, l, answer, valueAnswer);
      && t == Loader(if file == "" then l.wanted else l.wanted + [file], l.policy)
      && file == if LoadingOff(preference, l.policy) then "" else Next(r, l.wanted)
  {
    hide Call, BestFor, Modules;
    PlainCall(r, preference, l, r.oid, answer);
    PlainCall(r, preference, l, r.valueOid, valueAnswer);
  }

  /** Without questions the answers do not matter: the loop loads what it comes to next. */
  lemma {:induction false} UnaskedTurns(r: Request, preference: Preference, l: Loader,
                                        answers: (nat, bool) -> Answer, n: nat)
    requires Modules(r.total) && !LoadingOff(preference, l.policy) && !Asks(preference, l.policy)
    ensures Turns(r, preference, l, answers, n) == Loader(AfterRestarts(r, l.wanted, n), l.policy)
    ensures TurnFile(r, preference, l, answers, n) == Next(r, AfterRestarts(r, l.wanted, n))
    ensures TurnFile(r, preference, l, answers, n) == ""
      ==> AfterRestarts(r, l.wanted, n + 1) == AfterRestarts(r, l.wanted, n)
  {
    hide Turn, Next;
    if n > 0 {
      UnaskedTurns(r, preference, l, answers, n - 1);
      UnaskedTurn(r, preference, Turns(r, preference, l, answers, n - 1), answers(n - 1, false), answers(n - 1, true));
    }
    UnaskedTurn(r, preference, Turns(r, preference, l, answers, n), answers(n, false), answers(n, true));
  }

  /** A module that the loop can load next; when the user is asked the one for the name may be declined. */
  ghost predicate MayLoad(r: Request, asks: bool, w: seq<string>, file: string)
    requires Modules(r.total)
  {
    file != "" && (file == ForName(r, w) || (file == ForValue(r, w) && (asks || ForName(r, w) == "")))
  }

  /** The loop can load these files one after the other. */
  ghost predicate Path(r: Request, asks: bool, wanted: seq<string>, files: seq<string>)
    requires Modules(r.total)
  {
    forall i | 0 <= i < |files| :: MayLoad(r, asks, wanted + files[..i], files[i])
  }

  /** Wanting the file loads it and unloads none. */
  ghost predicate LoadsAt(loadedBy: seq<string> -> set<string>, w: seq<string>, file: string) {
    loadedBy(w) <= loadedBy(w + [file]) && file in loadedBy(w + [file])
  }

  /** Every file that the loop comes to choose really loads there. */
  ghost predicate EachLoads(r: Request, asks: bool, wanted: seq<string>)
    requires Modules(r.total)
  {
    forall files, file | Path(r, asks, wanted, files) && MayLoad(r, asks, wanted + files, file) ::
      LoadsAt(r.loadedBy, wanted + files, file)
  }

  ghost function Set(s: seq<string>): set<string> {
    set x | x in s
  }

  lemma NothingLoaded(r: Request, asks: bool, wanted: seq<string>)
    requires Modules(r.total)
    ensures Path(r, asks, wanted, []) && wanted + [] == wanted
  {
  }

  lemma AskedMayLoad(r: Request, w: seq<string>, file: string)
    requires Modules(r.total)
    ensures MayLoad(r, false, w, file) ==> MayLoad(r, true, w, file)
  {
  }

  lemma PathLoads(r: Request, asks: bool, wanted: seq<string>, files: seq<string>, file: string)
    requires Modules(r.total) && EachLoads(r, asks, wanted)
    requires Path(r, asks, wanted, files) && MayLoad(r, asks, wanted + files, file)
    ensures LoadsAt(r.loadedBy, wanted + files, file)
  {
  }

  lemma PathLonger(r: Request, asks: bool, wanted: seq<string>, files: seq<string>, file: string)
    requires Modules(r.total) && Path(r, asks, wanted, files) && MayLoad(r, asks, wanted + files, file)
    ensures Path(r, asks, wanted, files + [file])
    ensures wanted + (files + [file]) == wanted + files + [file]
  {
    var more := files + [file];
    forall i | 0 <= i < |more|
      ensures MayLoad(r, asks, wanted + more[..i], more[i])
    {
      assert more[..i] == files[..i];
      assert files[..|files|] == files;
    }
  }

  lemma {:induction false} SubsetSize<T>(a: set<T>, b: set<T>)
    requires a <= b
    ensures |a| <= |b|
  {
    if a != {} {
      var x :| x in a;
      SubsetSize(a - {x}, b - {x});
    }
  }

  /** Loading a file that the loop may load leaves fewer modules unloaded. */
  lemma {:induction false} LoadShrinks(r: Request, asks: bool, w: seq<string>, file: string)
    requires Modules(r.total) && MayLoad(r, asks, w, file) && LoadsAt(r.loadedBy, w, file)
    ensures |Set(NotLoaded(r.total, r.loadedBy(w + [file])))| < |Set(NotLoaded(r.total, r.loadedBy(w)))|
  {
    var u, u' := NotLoaded(r.total, r.loadedBy(w)), NotLoaded(r.total, r.loadedBy(w + [file]));
    BestIsGood(r.total, u, r.oid, |r.total|);
    BestIsGood(r.total, u, r.valueOid, |r.total|);
    assert file in Set(u);
    forall x
      ensures x in Set(u') ==> x in Set(u) && x != file
    {
      NotLoadedMembers(r.total, r.loadedBy(w), x);
      NotLoadedMembers(r.total, r.loadedBy(w + [file]), x);
    }
    assert Set(u') <= Set(u) - {file};
    SubsetSize(Set(u'), Set(u) - {file});
  }

  // ---------- the module list ----------

  class MibModule {
    const Total: seq<seq<string>>
    const preference: Preference

    /** Which files are loaded after a refresh with these wanted modules. */
    const loadedBy: seq<string> -> set<string>

    var Wanted: seq<string>
    var Loaded: set<string>
    var Unloaded: seq<string>
    var policy: Policy

    constructor (total: seq<seq<string>>, preference: Preference, loadedBy: seq<string> -> set<string>,
                 wanted: seq<string>)
      requires Modules(total)
      ensures Valid() && Total == total && Wanted == wanted
      ensures this.preference == preference && this.loadedBy == loadedBy
    {
      Total, this.preference, this.loadedBy, Wanted, policy := total, preference, loadedBy, wanted, LoadDefault;
      Loaded := loadedBy(wanted);
      Unloaded := NotLoaded(total, loadedBy(wanted));
    }

    ghost predicate Valid()
      reads this
    {
      Modules(Total) && Loaded == loadedBy(Wanted) && Unloaded == NotLoaded(Total, Loaded)
    }

    method RebuildUnloadedList()
      requires Modules(Total)
      modifies this`Unloaded
      ensures Unloaded == NotLoaded(Total, Loaded)
    {
      hide NotLoaded;
      NotLoadedFrom(Total, Loaded, |Total|);
      Unloaded := [];
      var i := 0;
      assert Total[0..] == Total;
      while i < |Total|
        invariant i <= |Total| && NotLoaded(Total, Loaded) == Unloaded + NotLoaded(Total[i..], Loaded)
      {
        NotLoadedFrom(Total, Loaded, i);
        var current := Total[i][0];
        if current !in Loaded {
          Unloaded := Unloaded + [current];
        }
        i := i + 1;
      }
    }

    /** `Refresh`: the library is restarted with the wanted modules and both lists are rebuilt. */
    method Refresh()
      requires Modules(Total)
      modifies this`Loaded, this`Unloaded
      ensures Valid()
    {
      Loaded := loadedBy(Wanted);
      RebuildUnloadedList();
    }

    /** The nested loops of the search. */
    method FindBest(oid: string) returns (file: string, root: string)
      requires Modules(Total)
      ensures Choice(file, root) == Best(Total, Unloaded, oid, |Total|)
    {
      file, root := "", "";
      var i := 0;
      while i < |Total|
        invariant i <= |Total| && Choice(file, root) == Best(Total, Unloaded, oid, i)
      {
        var mib := Total[i];
        var k := 0;
        while k < |mib| && !Better(mib[k], oid, |root|)
          invariant k <= |mib| && FirstBetter(mib, oid, |root|, 0) == FirstBetter(mib, oid, |root|, k)
        {
          k := k + 1;
        }
        if k < |mib| && mib[0] in Unloaded {
          file, root := mib[0], mib[k];
        }
        i := i + 1;
      }
    }

    /** `LoadBestModule`: a chosen module is added to the wanted ones and the lists are refreshed,
        unless loading is off or the user declines; `answer` is what the user says if asked. */
    method LoadBestModule(oid: string, answer: Answer) returns (file: string)
      requires Valid()
      modifies this
      ensures Valid()
      ensures file
        == if Consents(preference, old(policy), answer) then Best(Total, old(Unloaded), oid, |Total|).file else ""
      ensures policy
        == NextPolicy(preference, old(policy), answer, Best(Total, old(Unloaded), oid, |Total|).file != "")
      ensures Wanted == if file == "" then old(Wanted) else old(Wanted) + [file]
      ensures file == "" ==> Loaded == old(Loaded) && Unloaded == old(Unloaded)
      ensures (Loader(Wanted, policy), file)
        == Call(Total, loadedBy, preference, Loader(old(Wanted), old(policy)), oid, answer)
    {
      if preference.Off? || policy.LoadNone? {
        return "";
      }
      var root;
      file, root := FindBest(oid);
      if file != "" {
        if preference.Ask? && !policy.LoadAll? {
          match answer
          case NoToAll =>
            policy := LoadNone;
            return "";
          case No =>
            return "";
          case YesToAll =>
            policy := LoadAll;
          case Yes =>
        }
        Wanted := Wanted + [file];
        Refresh();
      }
    }

    /** One turn of the restart loop: the lookup, the load for the name, the load for the value. */
    method Restart(r: Request, answer: Answer, valueAnswer: Answer) returns (file: string)
      requires Valid() && r.total == Total && r.loadedBy == loadedBy
      modifies this
      ensures Valid()
      ensures Wanted == if file == "" then old(Wanted) else old(Wanted) + [file]
      ensures file == "" ==> Loaded == old(Loaded) && Unloaded == old(Unloaded)
      ensures LoadingOff(preference, old(policy)) ==> file == "" && policy == old(policy)
      ensures !Asks(preference, old(policy)) ==> policy == old(policy)
      ensures !LoadingOff(preference, old(policy)) && !Asks(preference, old(policy)) ==> file == Next(r, old(Wanted))
      ensures file != "" ==> MayLoad(r, Asks(preference, old(policy)), old(Wanted), file)
      ensures (Loader(Wanted, policy), file)
        == Turn(r, preference, Loader(old(Wanted), old(policy)), answer, valueAnswer)
    {
      hide Best, NotLoaded, Modules;
      var node := r.lookup(Loaded);
      file := "";
      if !node.found || !node.exact {
        file := LoadBestModule(r.oid, answer);
      }
      if file == "" && node.found && node.oidTyped {
        file := LoadBestModule(r.valueOid, valueAnswer);
      }
    }

    /** The restart loop of the walk's callback for one binding: after each load the lookup starts
        again.  When each file it comes to choose really loads, the loop ends after at most as many loads
        as there were unloaded modules.  Without questions it makes exactly the turns of `AfterRestarts`
        up to the first that chooses nothing, and with loading off it loads nothing. */
    method ResolveBinding(oid: string, valueOid: string, lookup: set<string> -> Lookup, answers: (nat, bool) -> Answer)
      returns (loads: nat)
      requires Valid()
      requires LoadingOff(preference, policy)
        || EachLoads(Request(Total, loadedBy, lookup, oid, valueOid), Asks(preference, policy), Wanted)
      modifies this
      ensures Valid()
      ensures loads + |Set(Unloaded)| <= |Set(old(Unloaded))|
      ensures |Wanted| == |old(Wanted)| + loads
      ensures var r := Request(Total, loadedBy, lookup, oid, valueOid);
        !LoadingOff(preference, old(policy)) && !Asks(preference, old(policy))
        ==> Wanted == AfterRestarts(r, old(Wanted), loads) && Next(r, Wanted) == ""
      ensures LoadingOff(preference, old(policy)) ==> loads == 0
      ensures var r := Request(Total, loadedBy, lookup, oid, valueOid); var l := Loader(old(Wanted), old(policy));
        && Loader(Wanted, policy) == Turns(r, preference, l, answers, loads + 1)
        && forall n: nat | n <= loads :: TurnFile(r, preference, l, answers, n) == "" <==> n == loads
    {
      hide Best, NotLoaded, EachLoads, Path, MayLoad, Next, Turn, Turns, TurnFile, AfterRestarts;
      var r := Request(Total, loadedBy, lookup, oid, valueOid);
      ghost var l := Loader(Wanted, policy);
      ghost var off, asks := LoadingOff(preference, policy), Asks(preference, policy);
      ghost var files: seq<string> := [];
      NothingLoaded(r, asks, Wanted);
      TurnsNext(r, preference, l, answers, 0);
      loads := 0;
      var again := true;
      while again
        invariant Valid() && |files| == loads && Wanted == old(Wanted) + files
        invariant loads + |Set(Unloaded)| <= |Set(old(Unloaded))|
        invariant Path(r, asks, old(Wanted), files)
        invariant !asks ==> policy == old(policy)
        invariant off ==> loads == 0
        invariant Loader(Wanted, policy) == Turns(r, preference, l, answers, if again then loads else loads + 1)
        invariant forall n: nat | n < loads :: TurnFile(r, preference, l, answers, n) != ""
        invariant !again ==> TurnFile(r, preference, l, answers, loads) == ""
        decreases |Set(Unloaded)|, again
      {
        ghost var w := Wanted;
        TurnsNext(r, preference, l, answers, loads);
        var file := Restart(r, answers(loads, false), answers(loads, true));
        again := file != "";
        if again {
          AskedMayLoad(r, w, file);
          PathLoads(r, asks, old(Wanted), files, file);
          LoadShrinks(r, asks, w, file);
          PathLonger(r, asks, old(Wanted), files, file);
          files := files + [file];
          loads := loads + 1;
        }
      }
      if !off && !asks {
        UnaskedTurns(r, preference, l, answers, loads);
        UnaskedTurns(r, preference, l, answers, loads + 1);
      }
    }
  }

  // ---------- main results ----------

  /** The module chosen for an identifier. */
  lemma {:induction false} ChosenModule(total: seq<seq<string>>, loaded: set<string>, oid: string)
    requires Modules(total)
    ensures var u := NotLoaded(total, loaded); var c := Best(total, u, oid, |total|);
      && GoodChoice(total, u, oid, |total|, c)
      && (c.file != "" ==> c.file !in loaded)
      && (c.file == ""
          <==> forall i | 0 <= i < |total| && total[i][0] !in loaded :: FirstBetter(total[i], oid, 0, 0) == |total[i]|)
  {
    var u := NotLoaded(total, loaded);
    var c := Best(total, u, oid, |total|);
    BestIsGood(total, u, oid, |total|);
    NotLoadedMembers(total, loaded, c.file);
    forall i | 0 <= i < |total|
      ensures total[i][0] in u <==> total[i][0] !in loaded
    {
      NotLoadedMembers(total, loaded, total[i][0]);
    }
    if c.file != "" {
      var i, k :| 0 <= i < |total| && 0 <= k < |total[i]| && total[i][0] == c.file && total[i][k] == c.root;
      assert Better(total[i][k], oid, 0);
      assert FirstBetter(total[i], oid, 0, 0) <= k;
    }
  }

  // ---------- what the answers do to later calls ----------

  /** Some module that is not loaded has a root that matches. */
  ghost predicate Found(total: seq<seq<string>>, loaded: set<string>, oid: string)
    requires Modules(total)
  {
    exists i, k :: 0 <= i < |total| && total[i][0] !in loaded && 0 <= k < |total[i]| && Matches(total[i][k], oid)
  }

  /** A module is chosen exactly when there is one. */
  lemma {:induction false} FoundIsChosen(total: seq<seq<string>>, loaded: set<string>, oid: string)
    requires Modules(total)
    ensures Best(total, NotLoaded(total, loaded), oid, |total|).file != "" <==> Found(total, loaded, oid)
  {
    hide Best, NotLoaded;
    ChosenModule(total, loaded, oid);
    forall i | 0 <= i < |total|
      ensures FirstBetter(total[i], oid, 0, 0) < |total[i]|
        <==> exists k :: 0 <= k < |total[i]| && Matches(total[i][k], oid)
    {
      var f := FirstBetter(total[i], oid, 0, 0);
      assert f < |total[i]| ==> Matches(total[i][f], oid);
      if k :| 0 <= k < |total[i]| && Matches(total[i][k], oid) {
        assert Better(total[i][k], oid, 0);
      }
    }
  }

  /** A call in this state asks the user. */
  ghost predicate Asking(total: seq<seq<string>>, loadedBy: seq<string> -> set<string>, preference: Preference,
                         l: Loader, oid: string)
    requires Modules(total)
  {
    preference.Ask? && l.policy == LoadDefault && Found(total, loadedBy(l.wanted), oid)
  }

  /** After the answer "no to all" no later call returns a file or wants another module, whatever is asked for. */
  lemma {:induction false} NoToAllStops(total: seq<seq<string>>, loadedBy: seq<string> -> set<string>,
                                        preference: Preference, l: Loader, oid: string, calls: seq<(string, Answer)>)
    requires Modules(total) && Asking(total, loadedBy, preference, l, oid)
    ensures var (m, file) := Call(total, loadedBy, preference, l, oid, NoToAll);
      && file == "" && m.wanted == l.wanted && Calls(total, loadedBy, preference, m, calls) == m
      && forall q, answer :: Call(total, loadedBy, preference, m, q, answer) == (m, "")
  {
    hide Best, NotLoaded, Found;
    FoundIsChosen(total, loadedBy(l.wanted), oid);
    if calls != [] {
      NoToAllStops(total, loadedBy, preference, l, oid, calls[..|calls| - 1]);
    }
  }

  /** After the answer "yes to all" that call and every later one loads the module chosen, whatever the
      answer. */
  lemma {:induction false} YesToAllLoads(total: seq<seq<string>>, loadedBy: seq<string> -> set<string>,
                                         preference: Preference, l: Loader, oid: string, calls: seq<(string, Answer)>)
    requires Modules(total) && Asking(total, loadedBy, preference, l, oid)
    ensures var (m, file) := Call(total, loadedBy, preference, l, oid, YesToAll);
      var later := Calls(total, loadedBy, preference, m, calls);
      && file != "" && m.wanted == l.wanted + [file] && later.policy == m.policy
      && forall q, answer ::
           var (after, f) := Call(total, loadedBy, preference, later, q, answer);
           && (f != "" <==> Found(total, loadedBy(later.wanted), q))
           && after.wanted == if f == "" then later.wanted else later.wanted + [f]
  {
    hide Best, NotLoaded, Found;
    FoundIsChosen(total, loadedBy(l.wanted), oid);
    if calls != [] {
      YesToAllLoads(total, loadedBy, preference, l, oid, calls[..|calls| - 1]);
    }
    var later := Calls(total, loadedBy, preference, Call(total, loadedBy, preference, l, oid, YesToAll).0, calls);
    forall q
      ensures Best(total, NotLoaded(total, loadedBy(later.wanted)), q, |total|).file != ""
        <==> Found(total, loadedBy(later.wanted), q)
    {
      FoundIsChosen(total, loadedBy(later.wanted), q);
    }
  }

  /** The answers "yes" and "no" hold for that call alone: the module is loaded or not, and the next match is
      asked about again. */
  lemma SingleAnswer(total: seq<seq<string>>, loadedBy: seq<string> -> set<string>, preference: Preference,
                     l: Loader, oid: string, answer: Answer, q: string)
    requires Modules(total) && Asking(total, loadedBy, preference, l, oid) && (answer == Yes || answer == No)
    ensures var (m, file) := Call(total, loadedBy, preference, l, oid, answer);
      && (file != "" <==> answer == Yes) && m.wanted == (if answer == Yes then l.wanted + [file] else l.wanted)
      && (Asking(total, loadedBy, preference, m, q) <==> Found(total, loadedBy(m.wanted), q))
      && (Found(total, loadedBy(m.wanted), q) ==>
           && Call(total, loadedBy, preference, m, q, Yes).1 != ""
           && Call(total, loadedBy, preference, m, q, No).1 == "")
  {
    hide Best, NotLoaded, Found;
    FoundIsChosen(total, loadedBy(l.wanted), oid);
    FoundIsChosen(total, loadedBy(Call(total, loadedBy, preference, l, oid, answer).0.wanted), q);
  }

  /** Without questions a match is loaded whatever the answer would be, and with loading off none is. */
  lemma UnaskedCall(total: seq<seq<string>>, loadedBy: seq<string> -> set<string>, preference: Preference,
                    l: Loader, oid: string, answer: Answer)
    requires Modules(total)
    ensures var (m, file) := Call(total, loadedBy, preference, l, oid, answer);
      && ((preference == Silent && l.policy != LoadNone) || (preference == Ask && l.policy == LoadAll) ==>
           (file != "" <==> Found(total, loadedBy(l.wanted), oid)))
      && (preference == Off || l.policy == LoadNone ==> file == "")
      && (!preference.Ask? ==> m.policy == l.policy)
  {
    hide Best, NotLoaded, Found;
    FoundIsChosen(total, loadedBy(l.wanted), oid);
  }

  // ---------- when the loop ends ----------

  /** Some turn chooses nothing. */
  ghost predicate Ends(r: Request, wanted: seq<string>)
    requires Modules(r.total)
  {
    exists n: nat :: Next(r, AfterRestarts(r, wanted, n)) == ""
  }

  /** The file loads whenever it is wanted. */
  ghost predicate Loads(loadedBy: seq<string> -> set<string>, file: string) {
    forall w :: LoadsAt(loadedBy, w, file)
  }

  /** Wanting the file never changes what is loaded. */
  ghost predicate Idle(loadedBy: seq<string> -> set<string>, file: string) {
    forall w :: loadedBy(w + [file]) == loadedBy(w)
  }

  /** What turn `n` chooses, if anything, is a file that loads. */
  ghost predicate TurnLoads(r: Request, wanted: seq<string>, n: nat)
    requires Modules(r.total)
  {
    Next(r, AfterRestarts(r, wanted, n)) != "" ==> Loads(r.loadedBy, Next(r, AfterRestarts(r, wanted, n)))
  }

  /** The loop stops exactly when the name is resolved to the end or no unloaded module has a matching root for
      it, and the same holds of a value that is an object identifier; else it goes on for the name first. */
  lemma StopsExactly(r: Request, w: seq<string>)
    requires Modules(r.total)
    ensures var loaded := r.loadedBy(w); var node := r.lookup(loaded);
      && (Next(r, w) == ""
          <==> && ((node.found && node.exact) || !Found(r.total, loaded, r.oid))
               && (!(node.found && node.oidTyped) || !Found(r.total, loaded, r.valueOid)))
      && (!(node.found && node.exact) && Found(r.total, loaded, r.oid) ==>
           Next(r, w) == Best(r.total, NotLoaded(r.total, loaded), r.oid, |r.total|).file)
      && (((node.found && node.exact) || !Found(r.total, loaded, r.oid)) && node.found && node.oidTyped ==>
           Next(r, w) == Best(r.total, NotLoaded(r.total, loaded), r.valueOid, |r.total|).file)
  {
    hide Best, NotLoaded, Found;
    FoundIsChosen(r.total, r.loadedBy(w), r.oid);
    FoundIsChosen(r.total, r.loadedBy(w), r.valueOid);
  }

  lemma NextIsKnown(r: Request, w: seq<string>)
    requires Modules(r.total) && Next(r, w) != ""
    ensures exists i :: 0 <= i < |r.total| && r.total[i][0] == Next(r, w)
  {
    var u := NotLoaded(r.total, r.loadedBy(w));
    BestIsGood(r.total, u, r.oid, |r.total|);
    BestIsGood(r.total, u, r.valueOid, |r.total|);
    NotLoadedMembers(r.total, r.loadedBy(w), Next(r, w));
  }

  lemma NextLoads(r: Request, w: seq<string>)
    requires Modules(r.total) && Next(r, w) != "" && Loads(r.loadedBy, Next(r, w))
    ensures |Set(NotLoaded(r.total, r.loadedBy(w + [Next(r, w)])))| < |Set(NotLoaded(r.total, r.loadedBy(w)))|
  {
    assert LoadsAt(r.loadedBy, w, Next(r, w));
    LoadShrinks(r, false, w, Next(r, w));
  }

  lemma {:induction false} EachTurnLoads(r: Request, wanted: seq<string>, n: nat)
    requires Modules(r.total)
    requires forall m: nat | m < n :: TurnLoads(r, wanted, m) && Next(r, AfterRestarts(r, wanted, m)) != ""
    ensures |Set(NotLoaded(r.total, r.loadedBy(AfterRestarts(r, wanted, n))))| + n
      <= |Set(NotLoaded(r.total, r.loadedBy(wanted)))|
  {
    hide Next, Loads, NotLoaded;
    if n > 0 {
      EachTurnLoads(r, wanted, n - 1);
      var w := AfterRestarts(r, wanted, n - 1);
      assert TurnLoads(r, wanted, n - 1);
      NextLoads(r, w);
    }
  }

  lemma SameNext(r: Request, w: seq<string>, w': seq<string>)
    requires Modules(r.total) && r.loadedBy(w) == r.loadedBy(w')
    ensures Next(r, w) == Next(r, w')
  {
  }

  /** A file that is idle is chosen again at every later turn. */
  lemma {:induction false} IdleRepeats(r: Request, wanted: seq<string>, n: nat, k: nat)
    requires Modules(r.total)
    requires var f := Next(r, AfterRestarts(r, wanted, n)); f != "" && Idle(r.loadedBy, f)
    ensures Next(r, AfterRestarts(r, wanted, n + k)) == Next(r, AfterRestarts(r, wanted, n))
    ensures r.loadedBy(AfterRestarts(r, wanted, n + k)) == r.loadedBy(AfterRestarts(r, wanted, n))
  {
    hide Next, Modules;
    if k > 0 {
      IdleRepeats(r, wanted, n, k - 1);
      SameNext(r, AfterRestarts(r, wanted, n), AfterRestarts(r, wanted, n + k - 1));
      SameNext(r, AfterRestarts(r, wanted, n), AfterRestarts(r, wanted, n + k));
    }
  }

  lemma {:induction false} SettledStays(r: Request, wanted: seq<string>, n: nat, k: nat)
    requires Modules(r.total) && Next(r, AfterRestarts(r, wanted, n)) == ""
    ensures Next(r, AfterRestarts(r, wanted, n + k)) == ""
  {
    hide Next;
    if k > 0 {
      SettledStays(r, wanted, n, k - 1);
    }
  }

  /** When each known file either loads whenever it is wanted or never changes what is loaded, the loop
      without questions ends exactly when every file it chooses is one that loads. */
  lemma {:induction false} LoopEndsExactly(r: Request, wanted: seq<string>)
    requires Modules(r.total)
    requires forall i | 0 <= i < |r.total| :: Loads(r.loadedBy, r.total[i][0]) || Idle(r.loadedBy, r.total[i][0])
    ensures Ends(r, wanted) <==> forall n: nat :: TurnLoads(r, wanted, n)
  {
    hide Next, Loads, Idle, AfterRestarts;
    if forall n: nat :: TurnLoads(r, wanted, n) {
      if !Ends(r, wanted) {
        EachTurnLoads(r, wanted, |Set(NotLoaded(r.total, r.loadedBy(wanted)))| + 1);
      }
    } else {
      var n: nat :| !TurnLoads(r, wanted, n);
      NextIsKnown(r, AfterRestarts(r, wanted, n));
      forall m: nat
        ensures Next(r, AfterRestarts(r, wanted, m)) != ""
      {
        if m >= n {
          IdleRepeats(r, wanted, n, m - n);
        } else if Next(r, AfterRestarts(r, wanted, m)) == "" {
          SettledStays(r, wanted, m, n - m);
        }
      }
    }
  }

  lemma {:induction false} OnlyChoice(total: seq<seq<string>>, oid: string)
    requires |total| == 1 && |total[0]| == 2 && total[0][0] != "" && total[0][1] != "" && total[0][1] <= oid
    ensures Modules(total) && Best(total, NotLoaded(total, {}), oid, 1).file == total[0][0]
  {
  }

  /** A module file that cannot be loaded and has a root for the unknown name keeps the loop running. */
  lemma FailingLoadRepeats(file: string)
    requires file != ""
    ensures !Ends(Request([[file, "1.3.6.1"]], w => {}, s => Lookup(false, false, false), "1.3.6.1.2", ""), [])
  {
    var total := [[file, "1.3.6.1"]];
    var r := Request(total, w => {}, s => Lookup(false, false, false), "1.3.6.1.2", "");
    OnlyChoice(total, "1.3.6.1.2");
    forall n: nat
      ensures Next(r, AfterRestarts(r, [], n)) != ""
    {
      hide Best, NotLoaded;
    }
  }

  // ---------- text prefixes and ancestors ----------

  /** The root's sub-identifiers begin the identifier's. */
  ghost predicate Ancestor(root: string, oid: string) {
    Split(root, '.') <= Split(oid, '.')
  }

  lemma AncestorOfNothing(root: string, oid: string)
    requires root == "" || oid == ""
    ensures Ancestor(root, oid) <==> root <= oid && (|root| == |oid| || oid[|root|] == '.')
  {
    assert Split("", '.') == [""];
    if root == "" {
      assert Split(oid, '.')[0] == "" <==> oid == "" || oid[0] == '.';
    } else {
      assert Split(root, '.')[0] == "" ==> |Split(root, '.')| > 1;
    }
  }

  lemma SplitPrefix(root: string, oid: string, a: seq<string>, b: seq<string>)
    requires root != "" && oid != "" && a == Split(root[1..], '.') && b == Split(oid[1..], '.')
    ensures Ancestor(root, oid) <==> root[0] == oid[0] && a <= b
    ensures a <= b <==> Ancestor(root[1..], oid[1..])
  {
    var x, y := Split(root, '.'), Split(oid, '.');
    if root[0] == '.' {
      assert x == [""] + a && x[0] == "" && x[1..] == a;
    } else {
      assert x == [[root[0]] + a[0]] + a[1..] && x[0][0] == root[0] && x[0][1..] == a[0] && x[1..] == a[1..];
    }
    if oid[0] == '.' {
      assert y == [""] + b && y[0] == "" && y[1..] == b;
    } else {
      assert y == [[oid[0]] + b[0]] + b[1..] && y[0][0] == oid[0] && y[0][1..] == b[0] && y[1..] == b[1..];
    }
  }

  /** A root is an ancestor of an identifier exactly when it is a text prefix that ends where one of the
      identifier's sub-identifiers ends. */
  lemma {:induction false} AncestorExactly(root: string, oid: string)
    ensures Ancestor(root, oid) <==> root <= oid && (|root| == |oid| || oid[|root|] == '.')
  {
    hide Ancestor;
    if root == "" || oid == "" {
      AncestorOfNothing(root, oid);
    } else {
      AncestorExactly(root[1..], oid[1..]);
      var a, b := Split(root[1..], '.'), Split(oid[1..], '.');
      assert root == [root[0]] + root[1..] && oid == [oid[0]] + oid[1..];
      assert root <= oid <==> root[0] == oid[0] && root[1..] <= oid[1..];
      SplitPrefix(root, oid, a, b);
    }
  }

  /** The root of the chosen module is an ancestor of the identifier exactly when the identifier ends
      there or goes on with a dot. */
  lemma {:induction false} ChosenAncestor(total: seq<seq<string>>, unloaded: seq<string>, oid: string)
    requires Modules(total) && Best(total, unloaded, oid, |total|).file != ""
    ensures var root := Best(total, unloaded, oid, |total|).root;
      |root| <= |oid| && (Ancestor(root, oid) <==> |root| == |oid| || oid[|root|] == '.')
  {
    BestIsGood(total, unloaded, oid, |total|);
    AncestorExactly(Best(total, unloaded, oid, |total|).root, oid);
  }

  /** No unloaded module has a root that is a text prefix of the identifier and ends inside one of its
      sub-identifiers. */
  ghost predicate NoCousin(total: seq<seq<string>>, unloaded: seq<string>, oid: string)
    requires Modules(total)
  {
    forall i, k | 0 <= i < |total| && total[i][0] in unloaded && 0 <= k < |total[i]| ::
      total[i][k] != "" && total[i][k] <= oid ==> |total[i][k]| == |oid| || oid[|total[i][k]|] == '.'
  }

  /** Then the root of the chosen module is an ancestor of the identifier. */
  lemma {:induction false} NoCousinAncestor(total: seq<seq<string>>, unloaded: seq<string>, oid: string)
    requires Modules(total) && NoCousin(total, unloaded, oid)
    ensures var c := Best(total, unloaded, oid, |total|); c.file != "" ==> Ancestor(c.root, oid)
  {
    hide Ancestor;
    var c := Best(total, unloaded, oid, |total|);
    BestIsGood(total, unloaded, oid, |total|);
    AncestorExactly(c.root, oid);
  }

  lemma {:induction false} LongerFirst(m: seq<string>, m': seq<string>, oid: string)
    requires |m| == 2 == |m'| && m[0] != "" && m'[0] != "" && !(m[0] <= oid) && !(m'[0] <= oid)
    requires m[1] != "" && m[1] <= oid && |m'[1]| < |m[1]|
    ensures Modules([m] + [m']) && Best([m] + [m'], [m[0]] + [m'[0]], oid, 2) == Choice(m[0], m[1])
  {
    var total, u := [m] + [m'], [m[0]] + [m'[0]];
    assert Best(total, u, oid, 0) == Choice("", "");
    assert FirstBetter(m, oid, 0, 0) == 1;
    assert Best(total, u, oid, 1) == Choice(m[0], m[1]);
    assert FirstBetter(m', oid, |m[1]|, 0) == 2;
  }

  /** For 1.3.6.1.25 the module with root 1.3.6.1.2 is chosen, which is no ancestor of it, and not the one
      with root 1.3.6.1, which is. */
  lemma CousinChosen()
    ensures var total := [["A", "1.3.6.1.2"]] + [["B", "1.3.6.1"]];
      && Modules(total) && Best(total, ["A"] + ["B"], "1.3.6.1.25", 2) == Choice("A", "1.3.6.1.2")
      && !Ancestor("1.3.6.1.2", "1.3.6.1.25") && Ancestor("1.3.6.1", "1.3.6.1.25")
  {
    hide Best, Modules, FirstBetter, Ancestor;
    AncestorExactly("1.3.6.1.2", "1.3.6.1.25");
    AncestorExactly("1.3.6.1", "1.3.6.1.25");
    assert "A"[0] == 'A' && "B"[0] == 'B' && "1.3.6.1.25"[0] == '1';
    assert "1.3.6.1.2" <= "1.3.6.1.25";
    assert "1.3.6.1.25"[..9] == "1.3.6.1.2" && "1.3.6.1.25"[..7] == "1.3.6.1";
    LongerFirst(["A", "1.3.6.1.2"], ["B", "1.3.6.1"], "1.3.6.1.25");
  }
}
