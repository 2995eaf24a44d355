/** Capturing MIB modules from the text of an RFC, with the page breaks skipped. */
module RfcExtract {
  import opened Seqs
  import opened StripPass

  /** A line with the verdicts of the regular expressions on it: a draft header, the start of a module
      (with its name), a page footer, a macro, an END.  `write` is the answer to the question whether
      an existing file may be overwritten, asked when a module starts. */
  datatype Line = Line(text: string, draft: bool, starts: Option<string>, page: bool, macro_: bool, end: bool,
                       write: bool)

  /** The variables of the line loop, and the modules written: `skipped` is -1 when not skipping. */
  datatype State = State(skip: int, skipped: int, macro_: bool, name: string, write: bool,
                         captured: seq<string>, files: seq<(string, seq<string>)>)

  const INITIAL := State(0, 0, false, "", true, [], [])

  // ---------- one line ----------

  function BeginModule(s: State, l: Line): State {
    if l.starts.Some? then
      s.(name := l.starts.value, skip := 9, skipped := -1, macro_ := false, captured := [], write := l.write)
    else s
  }

  function BeginPage(s: State, l: Line): State {
    if l.page then s.(skipped := 0) else s
  }

  /** One more line skipped, or the end of skipping. */
  function CountSkip(s: State, l: Line): State {
    if s.skipped < 0 then s
    else
      var n := s.skipped + 1;
      if n >= s.skip then s.(skipped := -1)
      else if n >= 4 && !IsBlank(l.text) then s.(skip := n, skipped := -1)
      else s.(skipped := n)
  }

  /** The state in which the line is captured or dropped. */
  function Ready(s: State, l: Line): State {
    CountSkip(BeginPage(BeginModule(s, l), l), l)
  }

  function Capture(s: State, l: Line): State {
    if s.skipped == -1 && s.name != "" then s.(captured := s.captured + [l.text]) else s
  }

  function EndModule(s: State, l: Line): State {
    var m := if l.macro_ then s.(macro_ := true) else s;
    if !l.end then m
    else if m.macro_ then m.(macro_ := false)
    else
      m.(name := "", captured := [], files := if m.write then m.files + [(m.name, Pass(m.captured))] else m.files)
  }

  function Step(s: State, l: Line): State {
    if l.draft then s else EndModule(Capture(Ready(s, l), l), l)
  }

  /** The state before line `i`. */
  function Before(ls: seq<Line>, i: nat): State
    requires i <= |ls|
  {
    if i == 0 then INITIAL else Step(Before(ls, i - 1), ls[i - 1])
  }

  // ---------- the loop ----------

  class Extractor {
    var skip: int
    var skipped: int
    var macro_: bool
    var name: string
    var write: bool
    var captured: seq<string>
    var files: seq<(string, seq<string>)>

    constructor ()
      ensures S() == INITIAL
    {
      skip, skipped, macro_, name, write, captured, files := 0, 0, false, "", true, [], [];
    }

    ghost function S(): State
      reads this
    {
      State(skip, skipped, macro_, name, write, captured, files)
    }

    method Skip(l: Line)
      modifies this
      ensures S() == CountSkip(old(S()), l)
    {
      if skipped >= 0 {
        skipped := skipped + 1;
        if skipped >= skip {
          skipped := -1;
        } else if skipped >= 4 && !IsBlank(l.text) {
          if skipped < skip {
            skip := skipped;
          }
          skipped := -1;
        }
      }
    }

    method Finish(l: Line)
      modifies this
      ensures S() == EndModule(old(S()), l)
    {
      if l.macro_ {
        macro_ := true;
      }
      if l.end {
        if !macro_ {
          if write {
            var out := WritePass(captured);
            files := files + [(name, out)];
          }
          captured := [];
          name := "";
        } else {
          macro_ := false;
        }
      }
    }

    method ProcessLine(l: Line)
      modifies this
      ensures S() == Step(old(S()), l)
    {
      if l.draft {
        return;
      }
      if l.starts.Some? {
        name := l.starts.value;
        skip, skipped, macro_, captured := 9, -1, false, [];
        write := l.write;
      }
      if l.page {
        skipped := 0;
      }
      Skip(l);
      if skipped == -1 && |name| > 0 {
        captured := captured + [l.text];
      }
      Finish(l);
    }

    method Extract(ls: seq<Line>)
      requires S() == INITIAL
      modifies this
      ensures S() == Before(ls, |ls|)
    {
      var k := 0;
      while k < |ls|
        invariant k <= |ls| && S() == Before(ls, k)
      {
        ProcessLine(ls[k]);
        k := k + 1;
      }
    }
  }

  // ---------- draft headers ----------

  function WithoutDrafts(ls: seq<Line>, n: nat): seq<Line>
    requires n <= |ls|
  {
    if n == 0 then [] else WithoutDrafts(ls, n - 1) + (if ls[n - 1].draft then [] else [ls[n - 1]])
  }

  lemma {:induction false} BeforePrefix(ls: seq<Line>, k: nat, i: nat)
    requires i <= k <= |ls|
    ensures Before(ls[..k], i) == Before(ls, i)
  {
    hide Step;
    if i > 0 {
      BeforePrefix(ls, k, i - 1);
    }
  }

  lemma {:induction false} BeforeSnoc(a: seq<Line>, l: Line)
    ensures Before(a + [l], |a| + 1) == Step(Before(a, |a|), l)
  {
    hide Step;
    BeforePrefix(a + [l], |a|, |a|);
    assert (a + [l])[..|a|] == a;
  }

  /** Draft headers are as if they were not there; the results below are about texts without them. */
  lemma {:induction false} DraftsIgnored(ls: seq<Line>, n: nat)
    requires n <= |ls|
    ensures Before(ls, n) == Before(WithoutDrafts(ls, n), |WithoutDrafts(ls, n)|)
  {
    if n > 0 {
      DraftsIgnored(ls, n - 1);
      assert ls[n - 1].draft ==> Step(Before(ls, n - 1), ls[n - 1]) == Before(ls, n - 1);
      hide Step;
      if !ls[n - 1].draft {
        BeforeSnoc(WithoutDrafts(ls, n - 1), ls[n - 1]);
      } else {
        assert WithoutDrafts(ls, n) == WithoutDrafts(ls, n - 1);
      }
    }
  }

  // ---------- page-break skipping ----------

  ghost predicate NoDrafts(ls: seq<Line>) {
    forall i | 0 <= i < |ls| :: !ls[i].draft
  }

  /** The state in which line `i` is captured or dropped. */
  ghost function At(ls: seq<Line>, i: nat): State
    requires i < |ls|
  {
    Ready(Before(ls, i), ls[i])
  }

  /** Line `i` is read inside a module and not captured. */
  ghost predicate Dropped(ls: seq<Line>, i: nat)
    requires i < |ls|
  {
    At(ls, i).name != "" && At(ls, i).skipped != -1
  }

  /** The skip limit that holds when line `i` is counted. */
  ghost function Limit(ls: seq<Line>, i: nat): int
    requires i < |ls|
  {
    BeginModule(Before(ls, i), ls[i]).skip
  }

  ghost predicate Started(ls: seq<Line>, i: nat)
    requires i <= |ls|
  {
    exists k :: 0 <= k < i && ls[k].starts.Some?
  }

  /** Once a module has started: the limit is between 4 and 9 and only another start raises it, and a
      running count is below it. */
  ghost predicate SkipInvariant(s: State) {
    4 <= s.skip <= 9 && -1 <= s.skipped < s.skip && s.skipped != 0
  }

  lemma StepBounds(s: State, l: Line)
    requires !l.draft
    ensures SkipInvariant(s) || l.starts.Some? ==> SkipInvariant(Step(s, l))
    ensures s.name == "" && l.starts.None? ==> Step(s, l).name == ""
  {
    hide IsBlank, Pass;
  }

  lemma StartedNext(ls: seq<Line>, i: nat)
    requires i < |ls|
    ensures Started(ls, i + 1) <==> Started(ls, i) || ls[i].starts.Some?
  {
  }

  lemma {:induction false} LimitBounds(ls: seq<Line>, i: nat)
    requires i <= |ls| && NoDrafts(ls)
    ensures Started(ls, i) ==> SkipInvariant(Before(ls, i))
    ensures !Started(ls, i) ==> Before(ls, i).name == ""
  {
    if i > 0 {
      hide Step, Started, SkipInvariant;
      LimitBounds(ls, i - 1);
      StartedNext(ls, i - 1);
      StepBounds(Before(ls, i - 1), ls[i - 1]);
    }
  }

  lemma ReadyLimit(s: State, l: Line)
    requires SkipInvariant(s) || l.starts.Some?
    ensures 4 <= Ready(s, l).skip <= 9 && (l.starts.None? ==> Ready(s, l).skip <= s.skip)
  {
    hide IsBlank;
  }

  lemma LimitAfterStep(s: State, l: Line)
    requires !l.draft
    ensures Step(s, l).skip == Ready(s, l).skip && (l.starts.None? ==> Ready(s, l).name == s.name)
  {
    hide IsBlank, Pass;
  }

  /** Inside a module the limit is between 4 and 9, and a line that starts no module never raises it. */
  lemma LimitNeverGrows(ls: seq<Line>, i: nat)
    requires i < |ls| && NoDrafts(ls)
    ensures At(ls, i).name != "" ==> 4 <= At(ls, i).skip <= 9
    ensures At(ls, i).name != "" && ls[i].starts.None? ==> Before(ls, i + 1).skip <= Before(ls, i).skip
  {
    hide Step, Ready, Started, SkipInvariant;
    LimitBounds(ls, i);
    if At(ls, i).name != "" {
      LimitAfterStep(Before(ls, i), ls[i]);
      ReadyLimit(Before(ls, i), ls[i]);
    }
  }

  /** A page break of which page line `j` is the footer ends at line `k`: that is the first non-blank line from
      the third after the footer on, with no other page line and no module start in between. */
  ghost predicate Break(ls: seq<Line>, j: nat, k: nat)
    requires k < |ls|
  {
    && j + 3 <= k && ls[j].page && !IsBlank(ls[k].text)
    && (forall m | j < m <= k :: !ls[m].page && ls[m].starts.None?)
    && (forall m | j + 3 <= m < k :: IsBlank(ls[m].text))
  }

  ghost predicate NoStart(ls: seq<Line>, k: nat, i: nat)
    requires k <= i < |ls|
  {
    forall m | k < m <= i :: ls[m].starts.None?
  }

  /** The count is below 9, and below the length of every page break that the module of line `i` has had. */
  ghost predicate BelowLimit(ls: seq<Line>, n: nat, i: nat)
    requires i < |ls|
  {
    && n < 9
    && forall j: nat, k: nat | k < i && Break(ls, j, k) && NoStart(ls, k, i) :: n < k - j + 1
  }

  /** Line `i` lies in the window of the page line `j`: no other page line and no module start in
      between, the count below 9 and below the length of every earlier page break of the module, and every
      line from the third after the footer on blank. */
  ghost predicate InWindow(ls: seq<Line>, j: nat, i: nat)
    requires j <= i < |ls|
  {
    && ls[j].page
    && BelowLimit(ls, i - j + 1, j)
    && (forall k | j < k <= i :: !ls[k].page && ls[k].starts.None?)
    && (forall k | j + 3 <= k <= i :: IsBlank(ls[k].text))
  }

  /** The same with the limit that the extractor holds. */
  ghost predicate Counting(ls: seq<Line>, j: nat, i: nat)
    requires j <= i < |ls|
  {
    && ls[j].page
    && i - j + 1 < Limit(ls, j)
    && (forall k | j < k <= i :: !ls[k].page && ls[k].starts.None?)
    && (forall k | j + 3 <= k <= i :: IsBlank(ls[k].text))
  }

  /** The module goes on from one line to the next when no module starts. */
  lemma Unended(ls: seq<Line>, i: nat)
    requires i < |ls| && NoDrafts(ls) && At(ls, i).name != "" && ls[i].starts.None?
    ensures i > 0 && At(ls, i - 1).name != ""
    ensures Before(ls, i).skipped == At(ls, i - 1).skipped && Before(ls, i).skip == At(ls, i - 1).skip
  {
  }

  /** What the count after a line says about the line and the count before it. */
  lemma CountBack(s: State, l: Line)
    requires SkipInvariant(s) || l.starts.Some?
    ensures var r := Ready(s, l); var limit := BeginModule(s, l).skip;
      && -1 <= r.skipped < limit && 4 <= limit <= 9 && r.skipped != 0
      && (r.skipped != -1 ==> r.skip == limit)
      && (l.page ==> r.skipped == 1)
      && (r.skipped == 1 ==> l.page)
      && (r.skipped > 1 ==> l.starts.None? && !l.page && s.skipped == r.skipped - 1)
      && (r.skipped >= 4 ==> IsBlank(l.text))
      && (!l.page && l.starts.None? && 0 < s.skipped && s.skipped + 1 < limit && (s.skipped >= 3 ==> IsBlank(l.text))
          ==> r.skipped == s.skipped + 1)
  {
  }

  lemma {:induction false} InvariantAt(ls: seq<Line>, i: nat)
    requires i < |ls| && NoDrafts(ls) && At(ls, i).name != ""
    ensures SkipInvariant(Before(ls, i)) || ls[i].starts.Some?
  {
    hide IsBlank, Pass, Step, SkipInvariant;
    LimitBounds(ls, i);
  }

  /** A running count of `n` after line `i` says that the line is the `n`-th of a page line's window. */
  lemma {:induction false} CountIsWindow(ls: seq<Line>, i: nat)
    requires i < |ls| && NoDrafts(ls) && At(ls, i).name != ""
    ensures var n := At(ls, i).skipped;
      n != -1 ==> 1 <= n <= i + 1 && Counting(ls, i + 1 - n, i) && At(ls, i).skip == Limit(ls, i + 1 - n)
  {
    hide IsBlank, Pass, Ready, Before, SkipInvariant;
    InvariantAt(ls, i);
    CountBack(Before(ls, i), ls[i]);
    var n := At(ls, i).skipped;
    if n > 1 {
      Unended(ls, i);
      CountIsWindow(ls, i - 1);
      assert Limit(ls, i) == Before(ls, i).skip;
    }
  }

  /** In the window of a page line the count runs. */
  lemma {:induction false} WindowIsCount(ls: seq<Line>, j: nat, i: nat)
    requires j <= i < |ls| && NoDrafts(ls) && At(ls, i).name != "" && Counting(ls, j, i)
    ensures At(ls, i).skipped == i - j + 1 && At(ls, i).skip == Limit(ls, j)
    decreases i
  {
    hide IsBlank, Pass, Ready, Before, SkipInvariant;
    InvariantAt(ls, i);
    CountBack(Before(ls, i), ls[i]);
    if j < i {
      Unended(ls, i);
      WindowIsCount(ls, j, i - 1);
    }
  }

  /** What a line does to the limit. */
  lemma LimitChange(s: State, l: Line)
    requires SkipInvariant(s) || l.starts.Some?
    ensures var limit := BeginModule(s, l).skip; var c := s.skipped + 1;
      Ready(s, l).skip
        == if !l.page && l.starts.None? && 4 <= c < limit && !IsBlank(l.text) then c else limit
    ensures l.starts.Some? ==> BeginModule(s, l).skip == 9
    ensures l.starts.None? ==> BeginModule(s, l).skip == s.skip
  {
    hide IsBlank;
  }

  lemma BelowLimitNext(ls: seq<Line>, n: nat, k: nat)
    requires k + 1 < |ls| && ls[k + 1].starts.None?
    ensures BelowLimit(ls, n, k + 1) <==> BelowLimit(ls, n, k) && forall j: nat | Break(ls, j, k) :: n < k + 1 - j
  {
    hide Break;
    forall m: nat | m < k
      ensures NoStart(ls, m, k + 1) <==> NoStart(ls, m, k)
    {
    }
    assert NoStart(ls, k, k + 1);
  }

  lemma BelowLimitEarlier(ls: seq<Line>, n: nat, j: nat, i: nat)
    requires j <= i < |ls| && NoStart(ls, j, i) && BelowLimit(ls, n, i)
    ensures BelowLimit(ls, n, j)
  {
    hide Break;
    forall k: nat | k < j && NoStart(ls, k, j)
      ensures NoStart(ls, k, i)
    {
    }
  }

  /** A break at line `k` is what is being counted there, unless the limit was reached before. */
  lemma {:induction false} BreakCounts(ls: seq<Line>, j: nat, k: nat)
    requires k < |ls| && NoDrafts(ls) && At(ls, k).name != "" && Break(ls, j, k)
    ensures var c := Before(ls, k).skipped + 1;
      if k - j < Limit(ls, j) then c == k + 1 - j && Limit(ls, k) == Limit(ls, j) else c == 0
  {
    hide IsBlank, Ready, Before, SkipInvariant;
    Unended(ls, k);
    assert Limit(ls, k) == Before(ls, k).skip;
    if k - j < Limit(ls, j) {
      WindowIsCount(ls, j, k - 1);
    } else {
      CountIsWindow(ls, k - 1);
      if At(ls, k - 1).skipped != -1 {
        assert false;
      }
    }
  }

  lemma {:induction false} CountGivesBreak(ls: seq<Line>, k: nat)
    requires k < |ls| && NoDrafts(ls) && At(ls, k).name != "" && !IsBlank(ls[k].text)
    requires !ls[k].page && ls[k].starts.None? && 4 <= Before(ls, k).skipped + 1
    ensures Before(ls, k).skipped <= k && Break(ls, k - Before(ls, k).skipped, k)
  {
    hide IsBlank, Ready, Before, SkipInvariant;
    Unended(ls, k);
    CountIsWindow(ls, k - 1);
  }

  lemma NoBreakNoChange(ls: seq<Line>, k: nat)
    requires k + 1 < |ls| && NoDrafts(ls) && At(ls, k + 1).name != "" && ls[k + 1].starts.None?
    requires forall j: nat :: !Break(ls, j, k)
    ensures Limit(ls, k + 1) == Limit(ls, k)
  {
    hide IsBlank, Ready, Before, SkipInvariant, Break;
    Unended(ls, k + 1);
    InvariantAt(ls, k);
    LimitChange(Before(ls, k), ls[k]);
    var c := Before(ls, k).skipped + 1;
    if !ls[k].page && ls[k].starts.None? && 4 <= c < Limit(ls, k) && !IsBlank(ls[k].text) {
      CountGivesBreak(ls, k);
    }
  }

  lemma BreakHasNoStart(ls: seq<Line>, j: nat, k: nat)
    requires k < |ls| && Break(ls, j, k)
    ensures j + 3 <= k && NoStart(ls, j, k)
    ensures forall j': nat | Break(ls, j', k) :: j' == j
  {
    hide IsBlank;
  }

  lemma LimitFalls(ls: seq<Line>, j: nat, i: nat)
    requires j <= i < |ls| && NoStart(ls, j, i) && Limit(ls, j) >= 0
    requires forall n: nat :: n < Limit(ls, i) <==> BelowLimit(ls, n, i)
    requires forall n: nat :: n < Limit(ls, j) <==> BelowLimit(ls, n, j)
    ensures Limit(ls, i) <= Limit(ls, j)
  {
    hide BelowLimit, Before;
    if Limit(ls, j) < Limit(ls, i) {
      var n: nat := Limit(ls, j);
      assert BelowLimit(ls, n, i);
      BelowLimitEarlier(ls, n, j, i);
    }
  }

  lemma LimitAfterBreak(ls: seq<Line>, j: nat, k: nat)
    requires k + 1 < |ls| && NoDrafts(ls) && At(ls, k + 1).name != "" && ls[k + 1].starts.None? && Break(ls, j, k)
    requires Limit(ls, k) <= Limit(ls, j)
    ensures Limit(ls, k + 1) == if k + 1 - j < Limit(ls, k) then k + 1 - j else Limit(ls, k)
  {
    hide IsBlank, Ready, Before, SkipInvariant;
    Unended(ls, k + 1);
    InvariantAt(ls, k);
    BreakCounts(ls, j, k);
    LimitChange(Before(ls, k), ls[k]);
    assert !ls[k].page && ls[k].starts.None?;
  }

  lemma FreshLimit(ls: seq<Line>, n: nat, i: nat)
    requires i < |ls| && ls[i].starts.Some?
    ensures BelowLimit(ls, n, i) <==> n < 9
  {
  }

  /** The module of line `i` was already open at line `j`, so the limit there was at least 4. */
  lemma {:induction false} StillStarted(ls: seq<Line>, j: nat, i: nat)
    requires j <= i < |ls| && NoDrafts(ls) && At(ls, i).name != ""
    requires forall k | j < k <= i :: ls[k].starts.None?
    ensures 4 <= Limit(ls, j) <= 9 && At(ls, j).name != ""
    decreases i - j
  {
    hide IsBlank, Pass, Ready, Before, SkipInvariant;
    if j == i {
      InvariantAt(ls, i);
      CountBack(Before(ls, i), ls[i]);
    } else {
      Unended(ls, i);
      StillStarted(ls, j, i - 1);
    }
  }

  /** The limit is 9 at first, and then the length of the shortest page break that the module has had. */
  lemma {:induction false} LimitIsLeast(ls: seq<Line>, i: nat)
    requires i < |ls| && NoDrafts(ls) && At(ls, i).name != ""
    ensures forall n: nat :: n < Limit(ls, i) <==> BelowLimit(ls, n, i)
    decreases i
  {
    hide IsBlank, Ready, Before, SkipInvariant, BelowLimit, Break;
    if ls[i].starts.Some? {
      LimitChange(Before(ls, i), ls[i]);
      forall n: nat
        ensures n < 9 <==> BelowLimit(ls, n, i)
      {
        FreshLimit(ls, n, i);
      }
    } else {
      Unended(ls, i);
      var k: nat := i - 1;
      LimitIsLeast(ls, k);
      forall n: nat
        ensures BelowLimit(ls, n, i) <==> BelowLimit(ls, n, k) && forall j: nat | Break(ls, j, k) :: n < k + 1 - j
      {
        BelowLimitNext(ls, n, k);
      }
      if j: nat :| Break(ls, j, k) {
        BreakHasNoStart(ls, j, k);
        StillStarted(ls, j, k);
        LimitIsLeast(ls, j);
        LimitFalls(ls, j, k);
        LimitAfterBreak(ls, j, k);
      } else {
        NoBreakNoChange(ls, k);
      }
    }
  }

  lemma WindowIsCounting(ls: seq<Line>, j: nat, i: nat)
    requires j <= i < |ls| && NoDrafts(ls) && At(ls, i).name != ""
    ensures InWindow(ls, j, i) <==> Counting(ls, j, i)
  {
    hide IsBlank, Ready, Before, BelowLimit;
    if forall k | j < k <= i :: !ls[k].page && ls[k].starts.None? {
      StillStarted(ls, j, i);
      LimitIsLeast(ls, j);
    }
  }

  // ---------- main results ----------

  /** Exactly which lines of a module are dropped: those in the window of a page line. */
  lemma DroppedExactly(ls: seq<Line>, i: nat)
    requires i < |ls| && NoDrafts(ls) && At(ls, i).name != ""
    ensures Dropped(ls, i) <==> exists j :: 0 <= j <= i && InWindow(ls, j, i)
  {
    if Dropped(ls, i) {
      CountIsWindow(ls, i);
      WindowIsCounting(ls, i + 1 - At(ls, i).skipped, i);
    }
    forall j | 0 <= j <= i && InWindow(ls, j, i)
      ensures Dropped(ls, i)
    {
      WindowIsCounting(ls, j, i);
      WindowIsCount(ls, j, i);
    }
  }

  /** Among the page lines close before line `i`, the latest. */
  lemma LatestPage(ls: seq<Line>, i: nat) returns (j: nat)
    requires i < |ls|
    requires exists j :: 0 <= j <= i <= j + 2 && ls[j].page && forall k | j < k <= i :: ls[k].starts.None?
    ensures j <= i <= j + 2 && ls[j].page && forall k | j < k <= i :: ls[k].starts.None? && !ls[k].page
  {
    if ls[i].page {
      j := i;
    } else if i >= 1 && ls[i - 1].page && ls[i].starts.None? {
      j := i - 1;
    } else {
      j := i - 2;
    }
  }

  /** A non-blank line of a module is dropped exactly when it is a page line or one of the two lines
      after one, with no module start in between. */
  lemma NonBlankDropped(ls: seq<Line>, i: nat)
    requires i < |ls| && NoDrafts(ls) && At(ls, i).name != "" && !IsBlank(ls[i].text)
    ensures Dropped(ls, i)
      <==> exists j :: 0 <= j <= i <= j + 2 && ls[j].page && forall k | j < k <= i :: ls[k].starts.None?
  {
    DroppedExactly(ls, i);
    if Dropped(ls, i) {
      var j :| 0 <= j <= i && InWindow(ls, j, i);
      assert i <= j + 2;
    }
    if exists j :: 0 <= j <= i <= j + 2 && ls[j].page && forall k | j < k <= i :: ls[k].starts.None? {
      var j := LatestPage(ls, i);
      StillStarted(ls, j, i);
      assert Counting(ls, j, i);
      WindowIsCounting(ls, j, i);
    }
  }

  /** The lines dropped on account of a page line are among the `skip` - 1 lines from it on, at most
      eight; so a page line costs no more than that. */
  lemma PageLineCost(ls: seq<Line>, j: nat, i: nat)
    requires j <= i < |ls| && NoDrafts(ls) && At(ls, i).name != "" && InWindow(ls, j, i)
    ensures Limit(ls, j) <= 9 && i < j + Limit(ls, j) - 1
  {
    WindowIsCounting(ls, j, i);
    StillStarted(ls, j, i);
  }

  /** The lines from `j` to before `i` that are not dropped. */
  ghost function Kept(ls: seq<Line>, j: nat, i: nat): seq<string>
    requires j <= i <= |ls|
  {
    if j == i then [] else Kept(ls, j, i - 1) + (if Dropped(ls, i - 1) then [] else [ls[i - 1].text])
  }

  lemma StepCaptures(s: State, l: Line)
    requires !l.draft && Step(s, l).name != ""
    ensures var r := Ready(s, l);
      && r.name != ""
      && Step(s, l).captured == (if l.starts.Some? then [] else s.captured) + (if r.skipped == -1 then [l.text] else [])
  {
  }

  lemma {:induction false} StillOpen(ls: seq<Line>, i: nat)
    requires i < |ls| && At(ls, i).name != "" && ls[i].starts.None?
    ensures Before(ls, i).name != ""
  {
  }

  /** While a module is open the captured text is exactly its lines that were not dropped, in order. */
  lemma {:induction false} CapturedIsKept(ls: seq<Line>, j: nat, i: nat)
    requires j < i <= |ls| && NoDrafts(ls) && ls[j].starts.Some? && Before(ls, i).name != ""
    requires forall k | j < k < i :: ls[k].starts.None?
    ensures Before(ls, i).captured == Kept(ls, j, i)
    decreases i
  {
    hide Step, IsBlank, Pass, Ready;
    StepCaptures(Before(ls, i - 1), ls[i - 1]);
    if j + 1 < i {
      StillOpen(ls, i - 1);
      CapturedIsKept(ls, j, i - 1);
    } else {
      assert Kept(ls, j, j) == [];
    }
  }

  // ---------- a whole module ----------

  /** A macro was entered in the lines from `j` to before `i` and no END came since. */
  ghost predicate MacroOpen(ls: seq<Line>, j: nat, i: nat)
    requires j <= i <= |ls|
  {
    exists m :: j <= m < i && ls[m].macro_ && forall k | m <= k < i :: !ls[k].end
  }

  /** Line `i` is an END that closes no macro, for a module that starts at line `j`. */
  ghost predicate Closes(ls: seq<Line>, j: nat, i: nat)
    requires j <= i < |ls|
  {
    ls[i].end && !ls[i].macro_ && !MacroOpen(ls, j, i)
  }

  lemma MacroNext(ls: seq<Line>, j: nat, i: nat)
    requires j <= i < |ls|
    ensures MacroOpen(ls, j, i + 1) <==> !ls[i].end && (ls[i].macro_ || MacroOpen(ls, j, i))
    ensures !MacroOpen(ls, j, j)
  {
  }

  /** Skipping touches only the counters. */
  lemma ReadyKeeps(s: State, l: Line)
    ensures var r := Ready(s, l); r == BeginModule(s, l).(skip := r.skip, skipped := r.skipped)
  {
    hide IsBlank;
  }

  /** The effect of a line on what the end of a module depends on. */
  lemma StepEnds(s: State, l: Line)
    requires !l.draft
    ensures var b := BeginModule(s, l); var t := Step(s, l); var open := b.macro_ || l.macro_;
      if l.end && !open then
        t.name == "" && t.files == s.files + if b.write then [(b.name, Pass(Capture(Ready(s, l), l).captured))] else []
      else t.name == b.name && t.write == b.write && t.files == s.files && t.macro_ == (open && !l.end)
  {
    hide Ready, Pass;
    ReadyKeeps(s, l);
  }

  /** Line `j` starts a module, and no line after it up to `i` starts another or closes this one
      before line `i`. */
  ghost predicate Within(ls: seq<Line>, j: nat, i: nat)
    requires j <= i <= |ls|
  {
    && NoDrafts(ls) && j < |ls| && ls[j].starts.Some? && ls[j].starts.value != ""
    && (forall k | j < k <= i && k < |ls| :: ls[k].starts.None?)
    && (forall k | j <= k < i :: !Closes(ls, j, k))
  }

  lemma {:induction false} OpenUntilClosed(ls: seq<Line>, j: nat, i: nat)
    requires j < i <= |ls| && Within(ls, j, i)
    ensures var s := Before(ls, i);
      && s.name == ls[j].starts.value && s.write == ls[j].write && s.files == Before(ls, j).files
      && (s.macro_ <==> MacroOpen(ls, j, i))
    decreases i
  {
    hide Step, MacroOpen;
    StepEnds(Before(ls, i - 1), ls[i - 1]);
    MacroNext(ls, j, i - 1);
    if j < i - 1 {
      OpenUntilClosed(ls, j, i - 1);
    }
    assert !Closes(ls, j, i - 1);
  }

  lemma LastLineKept(ls: seq<Line>, j: nat, i: nat)
    requires j <= i < |ls| && BeginModule(Before(ls, i), ls[i]).name != ""
    requires BeginModule(Before(ls, i), ls[i]).captured == Kept(ls, j, i)
    ensures Capture(Ready(Before(ls, i), ls[i]), ls[i]).captured == Kept(ls, j, i + 1)
  {
    hide IsBlank, Before;
  }

  /** A module runs from its start to the first END that closes no macro.  That line ends it, and
      unless the user keeps an existing file exactly one file is added: under the module's name, the
      pass over the lines of the module that were not dropped. */
  lemma {:induction false} ModuleWritten(ls: seq<Line>, j: nat, i: nat)
    requires j <= i < |ls| && Within(ls, j, i) && Closes(ls, j, i)
    ensures Before(ls, i + 1).name == ""
    ensures Before(ls, i + 1).files
      == Before(ls, j).files + if ls[j].write then [(ls[j].starts.value, Pass(Kept(ls, j, i + 1)))] else []
  {
    hide Step, MacroOpen, IsBlank, Pass, Ready;
    StepEnds(Before(ls, i), ls[i]);
    MacroNext(ls, j, i);
    if j < i {
      OpenUntilClosed(ls, j, i);
      CapturedIsKept(ls, j, i);
    }
    LastLineKept(ls, j, i);
  }

  // ---------- outside of modules ----------

  lemma {:induction false} NothingCaptured(ls: seq<Line>, i: nat)
    requires i <= |ls| && Before(ls, i).name == ""
    requires forall k | 0 <= k < i && ls[k].starts.Some? :: ls[k].starts.value != ""
    ensures Before(ls, i).captured == []
  {
    hide IsBlank, Pass, Ready;
    if i > 0 {
      ReadyKeeps(Before(ls, i - 1), ls[i - 1]);
      if Before(ls, i - 1).name == "" {
        NothingCaptured(ls, i - 1);
      }
    }
  }

  lemma PassOfNothing()
    ensures Pass([]) == []
  {
  }

  /** Line `k` is the last before line `i` that starts a module. */
  ghost predicate LastStart(ls: seq<Line>, k: nat, i: nat)
    requires i <= |ls|
  {
    k < i && ls[k].starts.Some? && forall m | k < m < i :: ls[m].starts.None?
  }

  lemma StepWrite(s: State, l: Line)
    requires !l.draft
    ensures Step(s, l).write == if l.starts.Some? then l.write else s.write
  {
    hide IsBlank, Pass;
  }

  lemma LastStartNext(ls: seq<Line>, k: nat, i: nat)
    requires i < |ls|
    ensures LastStart(ls, k, i + 1) <==> if ls[i].starts.Some? then k == i else LastStart(ls, k, i)
  {
  }

  /** Files are written but for a module whose file is to be kept, and until the next module starts. */
  lemma {:induction false} WriteOfLast(ls: seq<Line>, i: nat)
    requires i <= |ls| && NoDrafts(ls)
    ensures Before(ls, i).write <==> forall k: nat | LastStart(ls, k, i) :: ls[k].write
  {
    if i > 0 {
      hide Step, LastStart;
      WriteOfLast(ls, i - 1);
      StepWrite(Before(ls, i - 1), ls[i - 1]);
      forall k: nat
        ensures LastStart(ls, k, i) <==> if ls[i - 1].starts.Some? then k == i - 1 else LastStart(ls, k, i - 1)
      {
        LastStartNext(ls, k, i - 1);
      }
    }
  }

  /** An END outside of every module, with no macro open, adds an empty file without a name, unless the file of
      the module before was kept. */
  lemma StrayEnd(ls: seq<Line>, i: nat)
    requires i < |ls| && NoDrafts(ls) && Before(ls, i).name == ""
    requires forall k | 0 <= k < i && ls[k].starts.Some? :: ls[k].starts.value != ""
    requires ls[i].starts.None? && ls[i].end && !ls[i].macro_ && !Before(ls, i).macro_
    ensures Before(ls, i + 1).name == ""
    ensures Before(ls, i + 1).files
      == Before(ls, i).files + if forall k: nat | LastStart(ls, k, i) :: ls[k].write then [("", [])] else []
  {
    hide IsBlank, Pass, Step, Ready, LastStart;
    WriteOfLast(ls, i);
    NothingCaptured(ls, i);
    StepEnds(Before(ls, i), ls[i]);
    ReadyKeeps(Before(ls, i), ls[i]);
    assert Pass([]) == [] by { PassOfNothing(); }
  }
}
