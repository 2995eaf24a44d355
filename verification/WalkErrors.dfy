/** Runs of the walk in which the agent also answers with errors, as section 4.2.3 of RFC 3416 allows: the
    request's one binding comes back, with error index 0 or 1. */
module WalkErrors {
  import opened Oids
  import opened Walk
  import opened WalkRuns

  // ---------- what the agent may answer ----------

  ghost predicate ErrorAnswer(seed: Oid, pdu: Pdu) {
    && !pdu.error.NoError?
    && (pdu.errorIndex == 0 || pdu.errorIndex == 1)
    && (Bindings(pdu.vbs) == [Binding(seed, Data)] || (pdu.errorIndex == 0 && pdu.vbs == []))
  }

  /** Any beginning of the complete answer, the empty one included, or an error. */
  ghost predicate AnswerOrError(view: seq<Oid>, seed: Oid, p: Profile, pdu: Pdu) {
    || (pdu.error.NoError? && Bindings(pdu.vbs) <= BulkAnswer(view, seed, p))
    || ErrorAnswer(seed, pdu)
  }

  /** Every event a run can meet: stop, a timeout, a missing response, or an answer to the outstanding
      request, with or without error; the next request may or may not go out. */
  ghost predicate Allowed(view: seq<Oid>, p: Profile, s: State, e: Event) {
    e.Answer? && s.running && e.reason.Response? ==> AnswerOrError(view, s.seed, p, e.pdu)
  }

  ghost predicate AllowedRun(view: seq<Oid>, p: Profile, s: State, events: seq<Event>) {
    forall i | 0 <= i < |events| :: Allowed(view, p, Run(s, events[..i]), events[i])
  }

  /** An error response after which the walk goes on. */
  ghost predicate Survives(s: State, e: Event) {
    e.Answer? && s.running && e.reason.Response? && !e.pdu.error.NoError? && Step(s, e).running
  }

  // ---------- what is shown ----------

  /** The numbered objects in the window and, while the walk runs, in the pending text. */
  ghost function Shown(s: State): seq<(int, Oid)> {
    if s.running then Displayed(s) + Objects(s.msg) else Displayed(s)
  }

  /** How many objects were shown at each error response that the walk survived. */
  ghost function ErrorCounts(s: State, events: seq<Event>): seq<nat> {
    if events == [] then []
    else
      var n := |events| - 1;
      var before := Run(s, events[..n]);
      ErrorCounts(s, events[..n]) + (if Survives(before, events[n]) then [|Shown(before)|] else [])
  }

  /** The number that the object at position `k` gets: after an error response counting starts again at 2. */
  ghost function Label(errs: seq<nat>, k: nat): nat {
    if errs == [] then k + 1
    else
      var last := errs[|errs| - 1];
      if last <= k then k + 2 - last else Label(errs[..|errs| - 1], k)
  }

  /** The first `k` strict descendants with these numbers. */
  ghost function Labelled(view: seq<Oid>, root: Oid, errs: seq<nat>, k: nat): (r: seq<(int, Oid)>)
    requires k <= |Descendants(view, root)|
    ensures |r| == k && forall i | 0 <= i < k :: r[i] == (Label(errs, i), Descendants(view, root)[i])
  {
    seq(k, i requires 0 <= i < k => (Label(errs, i), Descendants(view, root)[i]))
  }

  ghost predicate NonDescending(errs: seq<nat>) {
    forall i, j | 0 <= i < j < |errs| :: errs[i] <= errs[j]
  }

  ghost predicate AtMost(errs: seq<nat>, k: nat) {
    forall i | 0 <= i < |errs| :: errs[i] <= k
  }

  /** The objects shown are the first descendants in order, numbered from the last error on; `objects` is
      the number of the last one. */
  ghost predicate Showing(view: seq<Oid>, s: State, errs: seq<nat>) {
    var k := |Shown(s)|;
    && k <= |Descendants(view, s.theoid)|
    && Shown(s) == Labelled(view, s.theoid, errs, k)
    && NonDescending(errs)
    && (s.running ==> AtMost(errs, k) && s.objects + 1 == Label(errs, k))
  }

  /** The seed of the next request is where the walk stands. */
  ghost predicate Seeded(view: seq<Oid>, s: State) {
    |Shown(s)| <= |Descendants(view, s.theoid)| && s.seed == Reached(view, s.theoid, |Shown(s)|)
  }

  ghost predicate Consistent(view: seq<Oid>, s: State, errs: seq<nat>) {
    Showing(view, s, errs) && (s.running ==> Seeded(view, s))
  }

  // ---------- one answer ----------

  lemma CountShows(s: State, pdu: Pdu, z: nat)
    requires s.running && z < |pdu.vbs| && pdu.error.NoError? && pdu.vbs[z].binding.syntax.Data?
    ensures var (c, ended) := Count(s, pdu, z);
      && !ended && c == s.(objects := s.objects + 1, msg := c.msg, query := c.query)
      && Shown(c) == Shown(s) + [(s.objects + 1, pdu.vbs[z].binding.oid)]
  {
    hide Objects, Displayed;
    var oid := pdu.vbs[z].binding.oid;
    var loading := LoadingTexts(pdu.vbs[z].loads);
    var line := [Object(s.objects + 1, oid)];
    LoadingShowsNothing(pdu.vbs[z].loads);
    ObjectsOfSum(s.msg, loading);
    ObjectsOfSum(s.msg + loading, line);
    OneObject(s.objects + 1, oid);
    var t := s.(objects := s.objects + 1, msg := s.msg + loading + line);
    FlushShows(t);
    SameWindow(s, t);
  }

  lemma {:induction false} ShowingNext(view: seq<Oid>, s: State, c: State, errs: seq<nat>)
    requires Showing(view, s, errs) && s.running && |Shown(s)| < |Descendants(view, s.theoid)|
    requires c == s.(objects := s.objects + 1, msg := c.msg, query := c.query)
    requires Shown(c) == Shown(s) + [(s.objects + 1, Descendants(view, s.theoid)[|Shown(s)|])]
    ensures Showing(view, c, errs)
  {
  }

  lemma {:induction false} ShowingBound(view: seq<Oid>, s: State, errs: seq<nat>)
    requires Showing(view, s, errs)
    ensures |Shown(s)| <= |Descendants(view, s.theoid)|
  {
  }

  /** Reading an answer without error shows one more descendant for each binding read, and ends the walk
      only when every descendant was shown. */
  lemma {:induction false} ScanShows(view: seq<Oid>, s: State, errs: seq<nat>, pdu: Pdu, z: nat, m: nat)
    requires Ordered(view) && Showing(view, s, errs) && s.running && pdu.error.NoError? && z <= |pdu.vbs|
    requires Bindings(pdu.vbs[z..]) <= Bulk(view, Reached(view, s.theoid, |Shown(s)|), m)
    ensures var (c, ended) := Scan(s, pdu, z);
      && Showing(view, c, errs)
      && c == s.(objects := c.objects, msg := c.msg, query := c.query)
      && (ended ==> |Shown(c)| == |Descendants(view, s.theoid)|)
      && (!ended ==> |Shown(c)| == |Shown(s)| + |pdu.vbs| - z
                     && (z < |pdu.vbs| ==> pdu.vbs[|pdu.vbs| - 1].binding.oid == Reached(view, s.theoid, |Shown(c)|)))
    decreases |pdu.vbs| - z
  {
    hide Showing, Ordered, Descendants, Count, Shown, Less, StrictlyBelow, NCompare;
    assert |Shown(s)| <= |Descendants(view, s.theoid)| by { ShowingBound(view, s, errs); }
    if z < |pdu.vbs| {
      BindingsTail(pdu.vbs, z);
      NextReached(view, s.theoid, |Shown(s)|);
      ScopeTest(pdu.vbs[z].binding.oid, s.theoid);
      assert m > 0;
      if |Shown(s)| < |Descendants(view, s.theoid)| {
        DescendantInScope(view, s.theoid, |Shown(s)|);
        CountShows(s, pdu, z);
        var (c, _) := Count(s, pdu, z);
        ShowingNext(view, s, c, errs);
        ScanShows(view, c, errs, pdu, z + 1, m - 1);
      }
    }
  }

  /** What ends the walk leaves a beginning of what was shown. */
  lemma EndKeepsShowing(view: seq<Oid>, s: State, r: State, errs: seq<nat>)
    requires Showing(view, s, errs) && r.theoid == s.theoid && !r.running && Shown(r) <= Shown(s)
    ensures Consistent(view, r, errs)
  {
  }

  /** The walk ended with its closing lines and everything shown so far in the window. */
  ghost predicate EndedWithAll(s: State, r: State) {
    !r.running && Displayed(r) == Shown(s) && ClosedBy(r, if s.stop then Stopped else Finished)
  }

  /** The walk broke off with this message, and the pending lines are lost. */
  ghost predicate BrokenWith(s: State, r: State, message: Text) {
    !r.running && Displayed(r) == Displayed(s) && BrokenBy(r, message)
  }

  lemma CleanedUp(s: State, t: Text)
    requires s.running && !t.Object?
    ensures Shown(Cleanup(s.(msg := [t]))) <= Shown(s) && BrokenWith(s, Cleanup(s.(msg := [t])), t)
    ensures Shown(End(s)) == Shown(s) && EndedWithAll(s, End(s))
  {
    hide Displayed, Objects, ClosedBy;
    ReplacedMessageShows(s, t);
    EndShows(s);
    EndCloses(s);
  }

  lemma SameShown(view: seq<Oid>, s: State, t: State, errs: seq<nat>)
    requires t == s.(requests := t.requests, seed := t.seed, stop := t.stop)
    ensures Shown(t) == Shown(s) && (Showing(view, s, errs) <==> Showing(view, t, errs))
  {
  }

  /** One answer without error, possibly empty: an empty one breaks the walk off. */
  lemma {:induction false} AnswerShows(view: seq<Oid>, p: Profile, s: State, errs: seq<nat>, pdu: Pdu, sent: bool)
    requires Ordered(view) && s.running && Consistent(view, s, errs)
    requires pdu.error.NoError? && Bindings(pdu.vbs) <= BulkAnswer(view, s.seed, p)
    ensures var r := Respond(s, Response, pdu, sent);
      && r.theoid == s.theoid && Consistent(view, r, errs)
      && (r.running ==> |Shown(r)| > |Shown(s)|)
      && (!s.stop && sent && pdu.vbs != [] && !r.running ==> |Shown(r)| == |Descendants(view, s.theoid)|)
      && (pdu.vbs == [] ==> BrokenWith(s, r, EmptyPdu) && r.objects == s.objects && r.requests == s.requests)
  {
    hide Showing, Ordered, Descendants, Shown, BrokenWith;
    if pdu.vbs == [] {
      CleanedUp(s, EmptyPdu);
      EndKeepsShowing(view, s, Cleanup(s.(msg := [EmptyPdu])), errs);
    } else {
      var c0 := s.(requests := s.requests + 1);
      SameShown(view, s, c0, errs);
      assert pdu.vbs[0..] == pdu.vbs;
      ScanShows(view, c0, errs, pdu, 0, if p.nonRepeaters > 0 then 1 else p.maxRepetitions);
      var (c, ended) := Scan(c0, pdu, 0);
      ShowingBound(view, c, errs);
      if ended || c.stop {
        CleanedUp(c, NotSent);
        EndKeepsShowing(view, c, End(c), errs);
      } else {
        var d := c.(seed := LastName(pdu, 0));
        SameShown(view, c, d, errs);
        if !sent {
          CleanedUp(d, NotSent);
          EndKeepsShowing(view, d, Cleanup(d.(msg := [NotSent])), errs);
        }
      }
    }
  }

  lemma {:induction false} BindingsLength(vbs: seq<Vb>)
    ensures |Bindings(vbs)| == |vbs|
  {
    if vbs != [] {
      BindingsLength(vbs[1..]);
    }
  }

  lemma {:induction false} OneBinding(vbs: seq<Vb>, seed: Oid)
    requires Bindings(vbs) == [Binding(seed, Data)]
    ensures |vbs| == 1 && vbs[0].binding == Binding(seed, Data)
  {
    BindingsLength(vbs);
    assert Bindings(vbs)[0] == vbs[0].binding;
  }

  lemma SeedInScope(view: seq<Oid>, s: State)
    requires Seeded(view, s)
    ensures s.theoid <= s.seed
  {
    if |Shown(s)| > 0 {
      DescendantInScope(view, s.theoid, |Shown(s)| - 1);
    }
  }

  lemma BindingErrorShows(s: State, pdu: Pdu, sent: bool)
    requires s.running && pdu.error.OtherError? && pdu.errorIndex == 1
    requires |pdu.vbs| == 1 && pdu.vbs[0].binding == Binding(s.seed, Data)
    requires NCompare(s.seed, |s.theoid|, s.theoid) == 0
    ensures var r := Respond(s, Response, pdu, sent);
      && (r.running <==> !pdu.vbs[0].known && !s.stop && sent)
      && (r.running ==> Shown(r) == Shown(s) && r == s.(requests := r.requests, objects := 1, msg := r.msg))
      && Shown(r) <= Shown(s) && r.theoid == s.theoid && r.stop == s.stop && r.objects == 1
      && (r.running ==> r.msg == s.msg + Loadings(pdu.vbs[0].loads) + [ErrorObject(1, s.seed)] + [Break])
      && (!r.running ==> if pdu.vbs[0].known || s.stop then EndedWithAll(s, r) else BrokenWith(s, r, NotSent))
  {
    hide NCompare, Objects, Displayed, ClosedBy, BrokenBy, LoadingTexts, Loadings;
    var vb := pdu.vbs[0];
    LoadingsAre(vb.loads);
    var line := [ErrorObject(1, vb.binding.oid)];
    LoadingShowsNothing(vb.loads);
    NoObject(ErrorObject(1, vb.binding.oid));
    NoObject(Break);
    ObjectsOfSum(s.msg, LoadingTexts(vb.loads));
    ObjectsOfSum(s.msg + LoadingTexts(vb.loads), line);
    ObjectsOfSum(s.msg + LoadingTexts(vb.loads) + line, [Break]);
    var c0 := s.(requests := s.requests + 1, objects := 0);
    var c1 := c0.(objects := 1, msg := s.msg + LoadingTexts(vb.loads) + line);
    var c2 := c1.(msg := c1.msg + [Break]);
    SameWindow(s, c1);
    SameWindow(s, c2);
    assert Count(c0, pdu, 0) == if vb.known then (c1, true) else (c2, false);
    assert Scan(c0, pdu, 0) == if vb.known then (c1, true) else (c2, false);
    CleanedUp(c1, NotSent);
    CleanedUp(c2, NotSent);
  }

  lemma Restarted(view: seq<Oid>, s: State, r: State, errs: seq<nat>)
    requires s.running && r.running && Consistent(view, s, errs)
    requires Shown(r) == Shown(s) && r == s.(requests := r.requests, objects := 1, msg := r.msg)
    ensures Consistent(view, r, errs + [|Shown(s)|])
  {
    hide Descendants, Shown;
    var k, more := |Shown(s)|, errs + [|Shown(s)|];
    assert more[..|more| - 1] == errs;
    assert forall i | 0 <= i < k :: Label(more, i) == Label(errs, i);
  }

  /** An error response: the walk goes on exactly when the error is on the binding, no node is known for
      it, and the next request goes out.  It then asks for the same name again, with one error line more
      and the count back at 1.  Otherwise noSuchName, and an error on a binding, end it with everything
      shown, while an error without a binding, or a refused send, breaks it off. */
  lemma ErrorShows(view: seq<Oid>, s: State, errs: seq<nat>, pdu: Pdu, sent: bool)
    requires s.running && Consistent(view, s, errs) && ErrorAnswer(s.seed, pdu)
    ensures var r := Respond(s, Response, pdu, sent);
      && r.theoid == s.theoid && r.stop == s.stop
      && (r.running <==> pdu.error.OtherError? && pdu.errorIndex == 1 && !pdu.vbs[0].known && !s.stop && sent)
      && (r.running ==> r.seed == s.seed && r.objects == 1 && Shown(r) == Shown(s))
      && Consistent(view, r, if r.running then errs + [|Shown(s)|] else errs)
      && (r.running ==> r.msg == s.msg + Loadings(pdu.vbs[0].loads) + [ErrorObject(1, s.seed)] + [Break])
      && (!r.running ==>
           if pdu.error.NoSuchName? then EndedWithAll(s, r) && r.objects == s.objects && r.requests == s.requests
           else if pdu.errorIndex == 0 then BrokenWith(s, r, ErrorText(pdu.error)) && r.objects == s.objects
           else if pdu.vbs[0].known || s.stop then EndedWithAll(s, r) && r.objects == 1
           else BrokenWith(s, r, NotSent) && r.objects == 1)
  {
    hide Showing, Descendants, Shown, NCompare, EndedWithAll, BrokenWith;
    var r := Respond(s, Response, pdu, sent);
    ShowingBound(view, s, errs);
    if pdu.error.NoSuchName? {
      CleanedUp(s, EmptyPdu);
      EndKeepsShowing(view, s, r, errs);
    } else if pdu.errorIndex == 0 {
      CleanedUp(s, ErrorText(pdu.error));
      EndKeepsShowing(view, s, r, errs);
    } else {
      OneBinding(pdu.vbs, s.seed);
      SeedInScope(view, s);
      ScopeTest(s.seed, s.theoid);
      BindingErrorShows(s, pdu, sent);
      if r.running {
        Restarted(view, s, r, errs);
      } else {
        EndKeepsShowing(view, s, r, errs);
      }
    }
  }

  lemma ErrorStep(view: seq<Oid>, p: Profile, s: State, errs: seq<nat>, e: Event)
    requires s.running && !s.stop && Consistent(view, s, errs)
    requires e == Answer(Response, Pdu(OtherError(5), 1, [Vb(Binding(s.seed, Data), [], false)]), true)
    ensures Allowed(view, p, s, e)
    ensures var t := Step(s, e); t.running && !t.stop && t.seed == s.seed && Shown(t) == Shown(s)
  {
    hide Consistent, Shown, Respond;
    assert [e.pdu.vbs[0]][1..] == [] && Bindings([]) == [];
    assert ErrorAnswer(s.seed, e.pdu);
    ErrorShows(view, s, errs, e.pdu, true);
  }

  // ---------- whole runs ----------

  lemma StartShows(view: seq<Oid>, root: Oid, sent: bool)
    ensures Consistent(view, Start(root, sent), [])
    ensures Shown(Start(root, sent)) == []
  {
    NoObject(Started);
    NoObject(NotSent);
    FlatOfSum([], [Started]);
    FlatOfSum([[Started]], [NotSent]);
    ObjectsOfSum([Started], [NotSent]);
    assert [] + [[Started]] == [[Started]] && [] + [Started] == [Started];
    assert [[Started]] + [[NotSent]] == [[Started], [NotSent]];
    assert Flat([]) == [] && Objects([]) == [];
  }

  lemma StepShows(view: seq<Oid>, p: Profile, s: State, errs: seq<nat>, e: Event)
    requires Ordered(view) && Consistent(view, s, errs) && Allowed(view, p, s, e)
    ensures Step(s, e).theoid == s.theoid
    ensures Consistent(view, Step(s, e), errs + (if Survives(s, e) then [|Shown(s)|] else []))
  {
    hide Showing, Ordered, Descendants, Shown;
    assert errs + [] == errs;
    if e.StopPressed? {
      SameShown(view, s, s.(stop := true), errs);
    } else if s.running {
      if !e.reason.Response? {
        var t := if e.reason.TimedOut? then TimeoutText else NoResponse(e.reason.code);
        CleanedUp(s, t);
        EndKeepsShowing(view, s, Cleanup(s.(msg := [t])), errs);
      } else if e.pdu.error.NoError? {
        AnswerShows(view, p, s, errs, e.pdu, e.sent);
      } else {
        ErrorShows(view, s, errs, e.pdu, e.sent);
      }
    }
  }

  lemma {:induction false} RunShows(view: seq<Oid>, p: Profile, root: Oid, sent: bool, events: seq<Event>)
    requires Ordered(view) && AllowedRun(view, p, Start(root, sent), events)
    ensures var s := Run(Start(root, sent), events);
      Consistent(view, s, ErrorCounts(Start(root, sent), events)) && s.theoid == root
  {
    hide Consistent, Allowed, Ordered, Survives, Step;
    if events == [] {
      StartShows(view, root, sent);
    } else {
      var n := |events| - 1;
      assert forall i | 0 <= i < n :: events[..n][i] == events[i] && events[..n][..i] == events[..i];
      RunShows(view, p, root, sent, events[..n]);
      StepShows(view, p, Run(Start(root, sent), events[..n]), ErrorCounts(Start(root, sent), events[..n]), events[n]);
    }
  }

  /** The identifiers shown are numbered 1, 2, 3, ... */
  ghost predicate WellNumbered(shown: seq<(int, Oid)>) {
    forall i | 0 <= i < |shown| :: shown[i].0 == i + 1
  }

  lemma {:induction false} LabelRight(errs: seq<nat>, i: nat)
    requires forall j | 0 <= j < |errs| :: errs[j] <= i ==> errs[j] == 1
    ensures Label(errs, i) == i + 1
  {
    if errs != [] && errs[|errs| - 1] > i {
      LabelRight(errs[..|errs| - 1], i);
    }
  }

  lemma {:induction false} LabelAtError(errs: seq<nat>, j: nat)
    requires NonDescending(errs) && j < |errs|
    ensures Label(errs, errs[j]) == 2
  {
    if errs[|errs| - 1] > errs[j] {
      LabelAtError(errs[..|errs| - 1], j);
    }
  }

  /** Safety of every run, error responses included: the identifiers shown are the first descendants of
      the root, in order and each once.  They are numbered from 1 without fault exactly when no object
      is shown after an error response that the walk survived, unless just one was shown before it. */
  lemma {:induction false} RunSafe(view: seq<Oid>, p: Profile, root: Oid, sent: bool, events: seq<Event>)
    requires Ordered(view) && AllowedRun(view, p, Start(root, sent), events)
    ensures var shown := Shown(Run(Start(root, sent), events)); var errs := ErrorCounts(Start(root, sent), events);
      && |shown| <= |Descendants(view, root)|
      && (forall i | 0 <= i < |shown| :: shown[i].1 == Descendants(view, root)[i])
      && (WellNumbered(shown) <==> forall j | 0 <= j < |errs| :: errs[j] < |shown| ==> errs[j] == 1)
  {
    hide Descendants, Shown, ErrorCounts, Run, Ordered, AllowedRun, Label;
    RunShows(view, p, root, sent, events);
    var shown, errs := Shown(Run(Start(root, sent), events)), ErrorCounts(Start(root, sent), events);
    assert shown == Labelled(view, root, errs, |shown|);
    if forall j | 0 <= j < |errs| :: errs[j] < |shown| ==> errs[j] == 1 {
      forall i | 0 <= i < |shown|
        ensures shown[i].0 == i + 1
      {
        LabelRight(errs, i);
      }
    } else {
      var j :| 0 <= j < |errs| && errs[j] < |shown| && errs[j] != 1;
      LabelAtError(errs, j);
      assert shown[errs[j]].0 != errs[j] + 1;
    }
  }

  /** An error response to the very first request makes the first descendant number 2. */
  lemma {:induction false} FirstErrorMisnumbers(view: seq<Oid>, p: Profile, root: Oid, vb: Vb)
    requires Ordered(view) && Descendants(view, root) != [] && (p.nonRepeaters > 0 || p.maxRepetitions > 0)
    requires vb.binding == BulkAnswer(view, root, p)[0]
    ensures var failed := Answer(Response, Pdu(OtherError(5), 1, [Vb(Binding(root, Data), [], false)]), true);
      var answered := Answer(Response, Pdu(NoError, 0, [vb]), true);
      var shown := Shown(Step(Step(Start(root, true), failed), answered));
      shown != [] && shown[0] == (2, Descendants(view, root)[0])
  {
    hide Ordered, Descendants, Shown, Respond;
    var failed := Answer(Response, Pdu(OtherError(5), 1, [Vb(Binding(root, Data), [], false)]), true);
    var s := Start(root, true);
    StartShows(view, root, true);
    ErrorStep(view, p, s, [], failed);
    StepShows(view, p, s, [], failed);
    var t := Step(s, failed);
    assert [] + [|Shown(s)|] == [0];
    assert [vb][1..] == [] && Bindings([]) == [];
    AnswerShows(view, p, t, [0], Pdu(NoError, 0, [vb]), true);
  }

  // ---------- the end of a walk with errors ----------

  /** A non-empty answer without error, or an error response that the walk survives; the next request
      goes out. */
  ghost predicate Answered(view: seq<Oid>, p: Profile, s: State, e: Event) {
    || Honest(view, p, s, e)
    || (e.Answer? && s.running && e.reason.Response? && ErrorAnswer(s.seed, e.pdu) && Survives(s, e))
  }

  ghost predicate AnsweredRun(view: seq<Oid>, p: Profile, s: State, events: seq<Event>) {
    forall i | 0 <= i < |events| :: Answered(view, p, Run(s, events[..i]), events[i])
  }

  /** How many of the events are answers without error. */
  function GoodAnswers(events: seq<Event>): nat {
    if events == [] then 0
    else
      var n := |events| - 1;
      GoodAnswers(events[..n]) + (if events[n].Answer? && events[n].pdu.error.NoError? then 1 else 0)
  }

  lemma {:induction false} StopStays(s: State, pdu: Pdu, sent: bool)
    ensures Respond(s, Response, pdu, sent).running ==> !Respond(s, Response, pdu, sent).stop
  {
  }

  lemma {:induction false} AnsweredStep(view: seq<Oid>, p: Profile, s: State, errs: seq<nat>, e: Event)
    requires Ordered(view) && Consistent(view, s, errs) && Answered(view, p, s, e) && (s.running ==> !s.stop)
    ensures var t := Step(s, e); var good := e.pdu.error.NoError?;
      && t.theoid == s.theoid && Consistent(view, t, errs + (if Survives(s, e) then [|Shown(s)|] else []))
      && (!s.running ==> t == s)
      && (s.running && t.running ==> !t.stop && |Shown(t)| >= |Shown(s)| + (if good then 1 else 0))
      && (t.running ==> |Shown(t)| <= |Descendants(view, s.theoid)|)
      && (s.running && !t.running ==> |Shown(t)| == |Descendants(view, s.theoid)|)
  {
    hide Ordered, Showing, Descendants, Shown;
    StepShows(view, p, s, errs, e);
    if s.running {
      if e.pdu.error.NoError? {
        AnswerShows(view, p, s, errs, e.pdu, e.sent);
        StopStays(s, e.pdu, e.sent);
      } else {
        ErrorShows(view, s, errs, e.pdu, e.sent);
      }
    }
    if Step(s, e).running {
      ShowingBound(view, Step(s, e), errs + (if Survives(s, e) then [|Shown(s)|] else []));
    }
  }

  /** With errors in between, an unstopped walk ends after at most one good answer more than there are
      descendants, and has then shown them all. */
  lemma {:induction false} RunEndsDespiteErrors(view: seq<Oid>, p: Profile, root: Oid, events: seq<Event>)
    requires Ordered(view) && AnsweredRun(view, p, Start(root, true), events)
    ensures var s := Run(Start(root, true), events); var all := |Descendants(view, root)|;
      && Consistent(view, s, ErrorCounts(Start(root, true), events)) && s.theoid == root
      && (if s.running then !s.stop && GoodAnswers(events) <= |Shown(s)| <= all else |Shown(s)| == all)
      && (GoodAnswers(events) > all ==> !s.running)
  {
    hide Ordered, Answers, Showing, Descendants, Shown;
    if events == [] {
      StartShows(view, root, true);
    } else {
      var n := |events| - 1;
      assert forall i | 0 <= i < n :: events[..n][i] == events[i] && events[..n][..i] == events[..i];
      RunEndsDespiteErrors(view, p, root, events[..n]);
      var s, e, errs := Run(Start(root, true), events[..n]), events[n], ErrorCounts(Start(root, true), events[..n]);
      assert Answered(view, p, s, e);
      AnsweredStep(view, p, s, errs, e);
    }
  }

  lemma {:induction false} AllowedMore(view: seq<Oid>, p: Profile, s: State, events: seq<Event>)
    requires events != []
    requires AllowedRun(view, p, s, events[..|events| - 1])
    requires Allowed(view, p, Run(s, events[..|events| - 1]), events[|events| - 1])
    ensures AllowedRun(view, p, s, events)
  {
    hide Allowed;
    var n := |events| - 1;
    assert forall i | 0 <= i < n :: events[..n][i] == events[i] && events[..n][..i] == events[..i];
  }

  /** Nothing bounds the error responses: an agent that goes on answering with an error on a name without
      node keeps the walk running for ever, with nothing shown. */
  lemma {:induction false} ErrorsKeepRunning(view: seq<Oid>, p: Profile, root: Oid, n: nat)
    requires Ordered(view)
    ensures var e := Answer(Response, Pdu(OtherError(5), 1, [Vb(Binding(root, Data), [], false)]), true);
      var events := seq(n, _ => e); var s := Run(Start(root, true), events);
      AllowedRun(view, p, Start(root, true), events) && s.running && !s.stop && s.seed == root && Shown(s) == []
  {
    var e := Answer(Response, Pdu(OtherError(5), 1, [Vb(Binding(root, Data), [], false)]), true);
    var events := seq(n, _ => e);
    hide Consistent, Ordered, Shown, Step, Allowed;
    if n == 0 {
      StartShows(view, root, true);
    } else {
      assert events[..n - 1] == seq(n - 1, _ => e) && events[n - 1] == e;
      ErrorsKeepRunning(view, p, root, n - 1);
      RunShows(view, p, root, true, events[..n - 1]);
      ErrorStep(view, p, Run(Start(root, true), events[..n - 1]), ErrorCounts(Start(root, true), events[..n - 1]), e);
      AllowedMore(view, p, Start(root, true), events);
    }
  }
}
