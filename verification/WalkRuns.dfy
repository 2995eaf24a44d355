/** Whole runs of the walk against an agent that answers as section 4.2.3 of RFC 3416 says. */
module WalkRuns {
  import opened Oids
  import opened Walk

  // ---------- the answering agent ----------

  /** `m` repetitions for one requested name: successors in the view, and after the last one the
      last name again with endOfMibView. */
  function Bulk(view: seq<Oid>, seed: Oid, m: nat): seq<Binding>
    decreases m
  {
    if m == 0 then []
    else
      var n := NextIndex(view, seed, 0);
      if n == |view| then [Binding(seed, EndOfMibView)] + Bulk(view, seed, m - 1)
      else [Binding(view[n], Data)] + Bulk(view, view[n], m - 1)
  }

  /** The GETBULK parameters of the agent profile. */
  datatype Profile = Profile(nonRepeaters: nat, maxRepetitions: nat)

  /** The complete answer: a single non-repeating name gets one successor. */
  function BulkAnswer(view: seq<Oid>, seed: Oid, p: Profile): seq<Binding> {
    Bulk(view, seed, if p.nonRepeaters > 0 then 1 else p.maxRepetitions)
  }

  function Bindings(vbs: seq<Vb>): seq<Binding> {
    if vbs == [] then [] else [vbs[0].binding] + Bindings(vbs[1..])
  }

  /** A response without error that holds a non-empty beginning of the complete answer. */
  ghost predicate Answers(view: seq<Oid>, seed: Oid, p: Profile, pdu: Pdu) {
    && pdu.error.NoError? && pdu.vbs != []
    && Bindings(pdu.vbs) <= BulkAnswer(view, seed, p)
  }

  // ---------- what is shown ----------

  /** The numbered objects among some texts. */
  ghost function Objects(t: seq<Text>): seq<(int, Oid)> {
    if t == [] then [] else (if t[0].Object? then [(t[0].n, t[0].oid)] else []) + Objects(t[1..])
  }

  ghost function Flat(query: seq<seq<Text>>): seq<Text> {
    if query == [] then [] else query[0] + Flat(query[1..])
  }

  /** The objects in the window. */
  ghost function Displayed(s: State): seq<(int, Oid)> {
    Objects(Flat(s.query))
  }

  /** The first `k` strict descendants, numbered from 1. */
  ghost function Numbered(view: seq<Oid>, root: Oid, k: nat): (r: seq<(int, Oid)>)
    requires k <= |Descendants(view, root)|
    ensures |r| == k && forall i | 0 <= i < k :: r[i] == (i + 1, Descendants(view, root)[i])
  {
    seq(k, i requires 0 <= i < k => (i + 1, Descendants(view, root)[i]))
  }

  lemma {:induction false} ObjectsOfSum(a: seq<Text>, b: seq<Text>)
    ensures Objects(a + b) == Objects(a) + Objects(b)
  {
    if a == [] {
      assert a + b == b;
    } else {
      assert (a + b)[0] == a[0] && (a + b)[1..] == a[1..] + b;
      ObjectsOfSum(a[1..], b);
    }
  }

  lemma {:induction false} FlatOfSum(a: seq<seq<Text>>, t: seq<Text>)
    ensures Flat(a + [t]) == Flat(a) + t
  {
    if a == [] {
      assert [t][1..] == [] && a + [t] == [t];
    } else {
      assert (a + [t])[1..] == a[1..] + [t];
      FlatOfSum(a[1..], t);
    }
  }

  lemma {:induction false} LoadingShowsNothing(loads: seq<string>)
    ensures Objects(LoadingTexts(loads)) == []
  {
    if loads != [] {
      LoadingShowsNothing(loads[1..]);
      assert LoadingTexts(loads)[1..] == LoadingTexts(loads[1..]);
    }
  }

  // ---------- the running state ----------

  ghost predicate InBounds(view: seq<Oid>, s: State) {
    0 <= s.objects <= |Descendants(view, s.theoid)|
  }

  ghost predicate Tens(query: seq<seq<Text>>) {
    query != [] && query[0] == [Started] && forall i | 1 <= i < |query| :: |Objects(query[i])| == 10
  }

  /** Between two responses: the objects shown or pending are the first `objects` descendants in
      order, exactly `objects` mod 10 of them are pending, and every appended text after the first
      holds ten. */
  ghost predicate Walking(view: seq<Oid>, s: State) {
    && InBounds(view, s)
    && Displayed(s) + Objects(s.msg) == Numbered(view, s.theoid, s.objects)
    && |Objects(s.msg)| == s.objects % 10
    && Tens(s.query)
  }

  lemma NoObject(t: Text)
    requires !t.Object?
    ensures Objects([t]) == []
  {
  }

  lemma NoObjects()
    ensures Objects([]) == []
  {
  }

  lemma FlushShows(s: State)
    ensures var f := Flush(s);
      Displayed(f) + Objects(f.msg) == Displayed(s) + Objects(s.msg) && f.objects == s.objects
  {
    if s.objects % 10 == 0 {
      FlatOfSum(s.query, s.msg);
      ObjectsOfSum(Flat(s.query), s.msg);
      assert Objects([]) == [];
    } else {
      ObjectsOfSum(s.msg, [Break]);
      NoObject(Break);
    }
  }

  /** Counting a descendant keeps the state; what is neither line nor count stays. */
  lemma FlushKeeps(s: State)
    requires 0 < s.objects && |Objects(s.msg)| == (s.objects - 1) % 10 + 1 && Tens(s.query)
    ensures var f := Flush(s);
      && Displayed(f) + Objects(f.msg) == Displayed(s) + Objects(s.msg)
      && |Objects(f.msg)| == s.objects % 10 && Tens(f.query)
  {
    hide Displayed, Objects;
    FlushShows(s);
    ObjectsOfSum(s.msg, [Break]);
    NoObject(Break);
    NoObjects();
  }

  lemma OneObject(n: int, oid: Oid)
    ensures Objects([Object(n, oid)]) == [(n, oid)]
  {
  }

  lemma {:induction false} CountKeeps(view: seq<Oid>, s: State, pdu: Pdu, z: nat)
    requires Walking(view, s) && z < |pdu.vbs| && pdu.error.NoError?
    requires s.objects < |Descendants(view, s.theoid)|
    requires pdu.vbs[z].binding == Binding(Descendants(view, s.theoid)[s.objects], Data)
    ensures var (c, ended) := Count(s, pdu, z);
      && !ended && InBounds(view, c) && Walking(view, c)
      && c == s.(objects := s.objects + 1, msg := c.msg, query := c.query)
  {
    hide Descendants, Objects, Tens;
    var oid := pdu.vbs[z].binding.oid;
    var loading := LoadingTexts(pdu.vbs[z].loads);
    var line := [Object(s.objects + 1, oid)];
    LoadingShowsNothing(pdu.vbs[z].loads);
    ObjectsOfSum(s.msg, loading);
    ObjectsOfSum(s.msg + loading, line);
    OneObject(s.objects + 1, oid);
    FlushKeeps(s.(objects := s.objects + 1, msg := s.msg + loading + line));
    assert Numbered(view, s.theoid, s.objects + 1) == Numbered(view, s.theoid, s.objects) + [(s.objects + 1, oid)];
  }

  /** The seed of the next request is where the walk stands. */
  ghost function Place(view: seq<Oid>, s: State): Oid
    requires InBounds(view, s)
  {
    Reached(view, s.theoid, s.objects)
  }

  lemma BindingsTail(vbs: seq<Vb>, z: nat)
    requires z < |vbs|
    ensures Bindings(vbs[z..])[0] == vbs[z].binding && Bindings(vbs[z..])[1..] == Bindings(vbs[z + 1..])
  {
  }

  lemma {:induction false} DescendantInScope(view: seq<Oid>, root: Oid, k: nat)
    requires k < |Descendants(view, root)|
    ensures root <= Descendants(view, root)[k]
  {
    var first := if StrictlyBelow(root, view[0]) then [view[0]] else [];
    if k >= |first| {
      DescendantInScope(view[1..], root, k - |first|);
    }
  }

  /** Reading an answer keeps the state, counts one descendant for each binding read, and ends the
      walk only when every descendant was counted. */
  lemma {:induction false} ScanKeeps(view: seq<Oid>, s: State, pdu: Pdu, z: nat, m: nat)
    requires Ordered(view) && InBounds(view, s) && Walking(view, s) && pdu.error.NoError? && z <= |pdu.vbs|
    requires Bindings(pdu.vbs[z..]) <= Bulk(view, Place(view, s), m)
    ensures var (c, ended) := Scan(s, pdu, z);
      && InBounds(view, c) && Walking(view, c)
      && c == s.(objects := c.objects, msg := c.msg, query := c.query)
      && (ended ==> c.objects == |Descendants(view, s.theoid)|)
      && (!ended ==> c.objects == s.objects + |pdu.vbs| - z
                     && (z < |pdu.vbs| ==> pdu.vbs[|pdu.vbs| - 1].binding.oid == Place(view, c)))
    decreases |pdu.vbs| - z
  {
    hide Walking, Ordered, Descendants, Count;
    if z < |pdu.vbs| {
      BindingsTail(pdu.vbs, z);
      NextReached(view, s.theoid, s.objects);
      ScopeTest(pdu.vbs[z].binding.oid, s.theoid);
      assert m > 0;
      if s.objects < |Descendants(view, s.theoid)| {
        DescendantInScope(view, s.theoid, s.objects);
        CountKeeps(view, s, pdu, z);
        var (c, _) := Count(s, pdu, z);
        ScanKeeps(view, c, pdu, z + 1, m - 1);
      }
    }
  }

  // ---------- runs ----------

  datatype Event = StopPressed | Answer(reason: Reason, pdu: Pdu, sent: bool)

  /** The callback only comes for an outstanding request. */
  function Step(s: State, e: Event): State {
    match e
    case StopPressed => s.(stop := true)
    case Answer(reason, pdu, sent) => if s.running then Respond(s, reason, pdu, sent) else s
  }

  function Run(s: State, events: seq<Event>): State {
    if events == [] then s else Step(Run(s, events[..|events| - 1]), events[|events| - 1])
  }

  /** Stop, a timeout, a missing response, or an answer without error to the outstanding request;
      the next request may or may not go out. */
  ghost predicate ErrorFree(view: seq<Oid>, p: Profile, s: State, e: Event) {
    e.Answer? && s.running && e.reason.Response? ==> Answers(view, s.seed, p, e.pdu)
  }

  /** An answer without error, after which the next request goes out. */
  ghost predicate Honest(view: seq<Oid>, p: Profile, s: State, e: Event) {
    e.Answer? && (s.running ==> e.reason.Response? && Answers(view, s.seed, p, e.pdu) && e.sent)
  }

  ghost predicate ErrorFreeRun(view: seq<Oid>, p: Profile, s: State, events: seq<Event>) {
    forall i | 0 <= i < |events| :: ErrorFree(view, p, Run(s, events[..i]), events[i])
  }

  ghost predicate HonestRun(view: seq<Oid>, p: Profile, s: State, events: seq<Event>) {
    forall i | 0 <= i < |events| :: Honest(view, p, Run(s, events[..i]), events[i])
  }

  /** While running: the walking state, with the seed where the walk stands.  Once over: a prefix
      of the descendants is displayed. */
  ghost predicate Safe(view: seq<Oid>, s: State) {
    if s.running then InBounds(view, s) && Walking(view, s) && s.seed == Place(view, s)
    else Displayed(s) <= Numbered(view, s.theoid, |Descendants(view, s.theoid)|)
  }

  lemma CleanupShows(s: State)
    ensures Displayed(Cleanup(s)) == Displayed(s) + Objects(s.msg)
  {
    FlatOfSum(s.query, s.msg);
    ObjectsOfSum(Flat(s.query), s.msg);
  }

  lemma EndShows(s: State)
    ensures Displayed(End(s)) == Displayed(s) + Objects(s.msg)
  {
    var last, totals := if s.stop then Stopped else Finished, Totals(s.requests, s.objects);
    NoObject(last);
    NoObject(totals);
    ObjectsOfSum(s.msg, [last]);
    ObjectsOfSum(s.msg + [last], [totals]);
    CleanupShows(s.(msg := s.msg + [last] + [totals]));
  }

  /** The last text of the window closes with this word, the number of requests answered, and `objects`. */
  ghost predicate ClosedBy(s: State, word: Text) {
    s.query != [] && exists t :: s.query[|s.query| - 1] == t + [word] + [Totals(s.requests, s.objects)]
  }

  ghost predicate Closed(s: State) {
    ClosedBy(s, Finished)
  }

  /** The last text of the window is this message alone. */
  ghost predicate BrokenBy(s: State, message: Text) {
    s.query != [] && s.query[|s.query| - 1] == [message]
  }

  lemma EndCloses(s: State)
    ensures ClosedBy(End(s), if s.stop then Stopped else Finished)
  {
    var word := if s.stop then Stopped else Finished;
    assert End(s).query[|s.query|] == s.msg + [word] + [Totals(s.requests, s.objects)];
  }

  /** A message that replaces the pending text leaves the window as it was. */
  lemma ReplacedMessageShows(s: State, t: Text)
    requires !t.Object?
    ensures Displayed(Cleanup(s.(msg := [t]))) == Displayed(s)
  {
    CleanupShows(s.(msg := [t]));
    NoObject(t);
  }

  lemma RequestsDoNotMatter(view: seq<Oid>, s: State, t: State)
    requires InBounds(view, s)
    requires t == s.(requests := t.requests, seed := t.seed, stop := t.stop)
    ensures Walking(view, s) <==> Walking(view, t)
    ensures Place(view, t) == Place(view, s) && Displayed(t) == Displayed(s)
  {
  }

  lemma {:induction false} WalkingShows(view: seq<Oid>, s: State)
    requires InBounds(view, s) && Walking(view, s)
    ensures Displayed(s) <= Numbered(view, s.theoid, |Descendants(view, s.theoid)|)
    ensures Displayed(s) + Objects(s.msg) == Numbered(view, s.theoid, s.objects)
    ensures Displayed(s) + Objects(s.msg) <= Numbered(view, s.theoid, |Descendants(view, s.theoid)|)
  {
  }

  /** The walk broke off: the window holds the descendants up to the last full ten, the pending ones are lost. */
  ghost predicate CutAtTens(view: seq<Oid>, s: State) {
    && InBounds(view, s) && !s.running
    && Displayed(s) == Numbered(view, s.theoid, s.objects - s.objects % 10)
  }

  /** The walk was ended with its closing lines: the window holds all `objects` descendants. */
  ghost predicate EndedAt(view: seq<Oid>, s: State) {
    && InBounds(view, s) && !s.running && Displayed(s) == Numbered(view, s.theoid, s.objects)
    && ClosedBy(s, if s.stop then Stopped else Finished)
  }

  lemma WalkingTens(view: seq<Oid>, s: State)
    requires InBounds(view, s) && Walking(view, s)
    ensures Displayed(s) == Numbered(view, s.theoid, s.objects - s.objects % 10)
  {
    hide Displayed, Objects, Descendants, Tens;
    var all := Numbered(view, s.theoid, s.objects);
    assert Displayed(s) == all[..s.objects - s.objects % 10];
  }

  lemma BrokenOff(view: seq<Oid>, s: State, t: Text)
    requires InBounds(view, s) && Walking(view, s) && !t.Object?
    ensures var r := Cleanup(s.(msg := [t])); CutAtTens(view, r) && BrokenBy(r, t)
  {
    hide Displayed, Objects, Descendants, Walking;
    WalkingTens(view, s);
    ReplacedMessageShows(s, t);
  }

  lemma {:induction false} EndsAll(view: seq<Oid>, s: State)
    requires InBounds(view, s) && Walking(view, s)
    ensures EndedAt(view, End(s))
  {
    hide Displayed, Objects, Descendants, ClosedBy;
    WalkingShows(view, s);
    EndShows(s);
    EndCloses(s);
  }

  lemma EndedIsSafe(view: seq<Oid>, s: State)
    requires EndedAt(view, s) || CutAtTens(view, s)
    ensures Safe(view, s)
  {
    hide Displayed, Descendants, ClosedBy;
  }

  /** What one answer without error does to a safe running state.  It makes progress; or it ends the walk with
      everything read in the window, because all descendants were read or the walk was stopped; or the next
      request cannot be sent. */
  lemma {:induction false} AnswerEffect(view: seq<Oid>, p: Profile, s: State, pdu: Pdu, sent: bool)
    requires Ordered(view) && s.running && Safe(view, s) && Answers(view, s.seed, p, pdu)
    ensures var r := Respond(s, Response, pdu, sent);
      && r.theoid == s.theoid && r.requests == s.requests + 1 && r.stop == s.stop && Safe(view, r)
      && (r.running ==> !s.stop && sent && r.objects > s.objects)
      && (!r.running ==> EndedAt(view, r)
                         || (!s.stop && !sent && CutAtTens(view, r) && BrokenBy(r, NotSent) && r.objects > s.objects))
      && (!s.stop && sent && !r.running ==>
           && r.objects == |Descendants(view, s.theoid)|
           && Displayed(r) == Numbered(view, s.theoid, r.objects) && Closed(r))
  {
    hide Walking, Ordered, Descendants, Displayed, Objects, Place, Numbered, ClosedBy, CutAtTens, BrokenBy;
    var c0 := s.(requests := s.requests + 1);
    assert Walking(view, c0) && Place(view, c0) == Place(view, s) by { RequestsDoNotMatter(view, s, c0); }
    assert pdu.vbs[0..] == pdu.vbs;
    ScanKeeps(view, c0, pdu, 0, if p.nonRepeaters > 0 then 1 else p.maxRepetitions);
    var (c, ended) := Scan(c0, pdu, 0);
    if ended || c.stop {
      EndsAll(view, c);
      EndedIsSafe(view, End(c));
    } else {
      var d := c.(seed := LastName(pdu, 0));
      RequestsDoNotMatter(view, c, d);
      if !sent {
        BrokenOff(view, d, NotSent);
        EndedIsSafe(view, Cleanup(d.(msg := [NotSent])));
      }
    }
  }

  /** The end of a subtree as SNMPv1 signals it, with the error noSuchName: the walk ends as it does otherwise,
      with everything read in the window. */
  lemma {:induction false} NoSuchNameEnds(view: seq<Oid>, s: State, pdu: Pdu, sent: bool)
    requires s.running && Safe(view, s) && pdu.error.NoSuchName?
    ensures var r := Respond(s, Response, pdu, sent);
      && EndedAt(view, r) && r.theoid == s.theoid && r.objects == s.objects
      && r.requests == s.requests && r.stop == s.stop
      && Displayed(r) == Numbered(view, s.theoid, s.objects) && (!s.stop ==> Closed(r))
  {
    hide Walking, Descendants, Displayed, Numbered, ClosedBy;
    EndsAll(view, s);
  }

  lemma StartSafe(view: seq<Oid>, root: Oid, sent: bool)
    ensures Safe(view, Start(root, sent))
    ensures Start(root, sent).running == sent && (!sent ==> BrokenBy(Start(root, sent), NotSent))
  {
    NoObject(Started);
    NoObject(NotSent);
    assert [[Started]][1..] == [] && [[Started], [NotSent]][1..] == [[NotSent]] && [[NotSent]][1..] == [];
    assert [Started] + [] == [Started] && [NotSent] + [] == [NotSent] && [Started] + [NotSent] == [Started, NotSent];
    ObjectsOfSum([Started], [NotSent]);
  }

  lemma SameWindow(s: State, t: State)
    requires t.query == s.query
    ensures Displayed(s) == Displayed(t)
  {
  }

  lemma StepSafe(view: seq<Oid>, p: Profile, s: State, e: Event)
    requires Ordered(view) && Safe(view, s) && ErrorFree(view, p, s, e)
    ensures Safe(view, Step(s, e)) && Step(s, e).theoid == s.theoid
  {
    hide Walking, Ordered, Descendants, Displayed, Objects, Place, Numbered;
    if e.StopPressed? {
      if s.running {
        RequestsDoNotMatter(view, s, s.(stop := true));
      }
      SameWindow(s, s.(stop := true));
    } else if s.running {
      if e.reason.Response? {
        AnswerEffect(view, p, s, e.pdu, e.sent);
      } else {
        WalkingShows(view, s);
        ReplacedMessageShows(s, if e.reason.TimedOut? then TimeoutText else NoResponse(e.reason.code));
      }
    }
  }

  /** Runs without error responses: whatever mixture of answers, stop, timeouts, failures and refused
      sends happened, the window shows the first descendants of the root in order, numbered from 1; while
      the walk runs no line is lost, and `objects` mod 10 of them are pending. */
  lemma {:induction false} RunBuffered(view: seq<Oid>, p: Profile, root: Oid, sent: bool, events: seq<Event>)
    requires Ordered(view) && ErrorFreeRun(view, p, Start(root, sent), events)
    ensures var s := Run(Start(root, sent), events); Safe(view, s) && s.theoid == root
  {
    hide Safe, ErrorFree, Ordered;
    if events == [] {
      StartSafe(view, root, sent);
    } else {
      var n := |events| - 1;
      assert forall i | 0 <= i < n :: events[..n][i] == events[i] && events[..n][..i] == events[..i];
      RunBuffered(view, p, root, sent, events[..n]);
      StepSafe(view, p, Run(Start(root, sent), events[..n]), events[n]);
    }
  }

  /** A run of answers without error that breaks off with a timeout or a missing response: of the `objects`
      descendants read, exactly those up to the last full ten are in the window. */
  lemma {:induction false} LostAnswerCutsAtTens(view: seq<Oid>, p: Profile, root: Oid, sent: bool,
                                                events: seq<Event>, e: Event)
    requires Ordered(view) && ErrorFreeRun(view, p, Start(root, sent), events)
    requires Run(Start(root, sent), events).running && e.Answer? && !e.reason.Response?
    ensures var s := Run(Start(root, sent), events); var r := Step(s, e);
      && CutAtTens(view, r) && r.theoid == root && r.objects == s.objects
      && BrokenBy(r, if e.reason.TimedOut? then TimeoutText else NoResponse(e.reason.code))
  {
    hide Ordered, Walking, Displayed, Descendants, Numbered, ErrorFree;
    RunBuffered(view, p, root, sent, events);
    var t := if e.reason.TimedOut? then TimeoutText else NoResponse(e.reason.code);
    BrokenOff(view, Run(Start(root, sent), events), t);
  }

  /** The walk is over and displayed every strict descendant of the root, in lexicographic order,
      each once; the last text closes with the number of requests answered and of descendants. */
  ghost predicate Complete(view: seq<Oid>, root: Oid, s: State) {
    && !s.running && s.objects == |Descendants(view, root)|
    && Displayed(s) == Numbered(view, root, |Descendants(view, root)|)
    && Closed(s)
  }

  /** Correctness of the walk: against an agent that answers every request without error, unstopped,
      it ends after at most one answer more than there are descendants, and then it is complete. */
  lemma {:induction false} RunComplete(view: seq<Oid>, p: Profile, root: Oid, events: seq<Event>)
    requires Ordered(view) && HonestRun(view, p, Start(root, true), events)
    ensures var s := Run(Start(root, true), events);
      && Safe(view, s) && s.theoid == root && !(s.running && s.stop)
      && (s.running ==> |events| == s.requests <= s.objects) && s.requests <= |events|
      && (!s.running ==> Complete(view, root, s))
      && (|events| > |Descendants(view, root)| ==> !s.running)
  {
    hide Ordered, Answers, Walking, Descendants, Displayed, Numbered, Place, Closed;
    if events == [] {
      StartSafe(view, root, true);
    } else {
      var n := |events| - 1;
      assert forall i | 0 <= i < n :: events[..n][i] == events[i] && events[..n][..i] == events[..i];
      RunComplete(view, p, root, events[..n]);
      var s, e := Run(Start(root, true), events[..n]), events[n];
      assert Honest(view, p, s, e);
      if s.running {
        AnswerEffect(view, p, s, e.pdu, e.sent);
      }
    }
  }

  // ---------- the text, line by line ----------

  /** What is in the window, followed by what is pending. */
  ghost function Transcript(s: State): seq<Text> {
    Flat(s.query) + s.msg
  }

  ghost function Loadings(loads: seq<string>): seq<Text> {
    if loads == [] then [] else [Loading(loads[0])] + Loadings(loads[1..])
  }

  /** Binding `i` is an exception, or the one the response's error is about. */
  ghost predicate Bad(pdu: Pdu, i: nat)
    requires i < |pdu.vbs|
  {
    || pdu.vbs[i].binding.syntax in {NoSuchObject, NoSuchInstance}
    || (pdu.error != NoError && pdu.errorIndex == i + 1)
  }

  /** A bad binding whose node is known: it is the last one shown. */
  ghost predicate Fatal(pdu: Pdu, i: nat)
    requires i < |pdu.vbs|
  {
    Bad(pdu, i) && pdu.vbs[i].known
  }

  /** The line for binding `i` as the `n`-th object: the modules loaded for it, the object or the error, and a
      break unless a ten is full or the walk ends there. */
  ghost function Line(pdu: Pdu, i: nat, n: int): seq<Text>
    requires i < |pdu.vbs|
  {
    var oid := pdu.vbs[i].binding.oid;
    Loadings(pdu.vbs[i].loads) + [if Bad(pdu, i) then ErrorObject(n, oid) else Object(n, oid)]
    + (if n % 10 == 0 || Fatal(pdu, i) then [] else [Break])
  }

  /** The lines for the bindings from `z` up to `end`, after `n` objects. */
  ghost function Lines(pdu: Pdu, z: nat, end: nat, n: int): seq<Text>
    requires end <= |pdu.vbs|
    decreases end - z
  {
    if z >= end then [] else Line(pdu, z, n + 1) + Lines(pdu, z + 1, end, n + 1)
  }

  lemma {:induction false} LoadingsAre(loads: seq<string>)
    ensures LoadingTexts(loads) == Loadings(loads)
  {
    if loads != [] {
      LoadingsAre(loads[1..]);
      assert LoadingTexts(loads) == [Loading(loads[0])] + LoadingTexts(loads[1..]);
    }
  }

  lemma CountTranscript(s: State, pdu: Pdu, z: nat)
    requires z < |pdu.vbs|
    ensures var (c, ended) := Count(s, pdu, z);
      && (ended <==> Fatal(pdu, z)) && c.objects == s.objects + 1 && c.theoid == s.theoid
      && Transcript(c) == Transcript(s) + Line(pdu, z, s.objects + 1)
  {
    hide Flat, LoadingTexts, Loadings;
    var oid := pdu.vbs[z].binding.oid;
    LoadingsAre(pdu.vbs[z].loads);
    var shown := if Bad(pdu, z) then ErrorObject(s.objects + 1, oid) else Object(s.objects + 1, oid);
    FlatOfSum(s.query, s.msg + LoadingTexts(pdu.vbs[z].loads) + [shown]);
  }

  /** The binding ends the walk: the view is over, or the name lies outside the walked subtree. */
  ghost predicate Beyond(root: Oid, vb: Vb) {
    vb.binding.syntax == EndOfMibView || !(root <= vb.binding.oid)
  }

  /** Reading the bindings of any response from `z` on, line by line: they are shown in order, up to the first
      that lies beyond the subtree or up to and with the first that is bad and known, and all when there is none. */
  lemma {:induction false} ScanTranscript(s: State, pdu: Pdu, z: nat)
    requires z <= |pdu.vbs|
    ensures var (c, ended) := Scan(s, pdu, z); var k := c.objects - s.objects; var end := z + k;
      && 0 <= k && end <= |pdu.vbs| && Transcript(c) == Transcript(s) + Lines(pdu, z, end, s.objects)
      && (forall i | z <= i < end :: !Beyond(s.theoid, pdu.vbs[i]) && (Fatal(pdu, i) ==> i == end - 1))
      && (ended <==> (k > 0 && Fatal(pdu, end - 1)) || (end < |pdu.vbs| && Beyond(s.theoid, pdu.vbs[end])))
      && (!ended ==> end == |pdu.vbs|)
    decreases |pdu.vbs| - z
  {
    hide Count, NCompare, Line, Transcript, Bad;
    if z < |pdu.vbs| {
      ScopeTest(pdu.vbs[z].binding.oid, s.theoid);
      if !OutOfScope(s, pdu.vbs[z]) {
        CountTranscript(s, pdu, z);
        var (c1, fatal) := Count(s, pdu, z);
        if fatal {
          assert Lines(pdu, z + 1, z + 1, s.objects + 1) == [];
        } else {
          ScanTranscript(c1, pdu, z + 1);
        }
      }
    }
  }

  /** A response with an error on one of its bindings: when that binding lies in the walked subtree
      and has a node, it is shown as the error, under its position in the response, and the walk ends
      there. */
  lemma ErrorAnswerEnds(s: State, pdu: Pdu, sent: bool)
    requires pdu.error.OtherError? && 1 <= pdu.errorIndex <= |pdu.vbs|
    requires var vb := pdu.vbs[pdu.errorIndex - 1];
      vb.known && vb.binding.syntax.Data? && s.theoid <= vb.binding.oid
    ensures var r := Respond(s, Response, pdu, sent); var vb := pdu.vbs[pdu.errorIndex - 1];
      && !r.running && r.objects == pdu.errorIndex && r.requests == s.requests + 1
      && r.query == s.query + [s.msg + Loadings(vb.loads) + [ErrorObject(pdu.errorIndex, vb.binding.oid)]
                               + [if s.stop then Stopped else Finished] + [Totals(s.requests + 1, pdu.errorIndex)]]
  {
    hide NCompare, LoadingTexts, Loadings;
    var vb := pdu.vbs[pdu.errorIndex - 1];
    ScopeTest(vb.binding.oid, s.theoid);
    LoadingsAre(vb.loads);
  }

  /** An honest answer can always be given while the walk runs and the profile asks for anything. */
  lemma AnswerExists(view: seq<Oid>, seed: Oid, p: Profile, vb: Vb)
    requires p.nonRepeaters > 0 || p.maxRepetitions > 0
    requires vb.binding == BulkAnswer(view, seed, p)[0]
    ensures Answers(view, seed, p, Pdu(NoError, 0, [vb]))
  {
  }
}
