/** The GETBULK walk of the agent window: start, asynchronous callback, stop. */
module Walk {
  import opened Oids

  datatype Syntax = Data | NoSuchObject | NoSuchInstance | EndOfMibView

  datatype Binding = Binding(oid: Oid, syntax: Syntax)

  /** A received variable binding, with what the MIB database makes of it: the modules loaded to
      resolve its name, and whether a node was found in the end. */
  datatype Vb = Vb(binding: Binding, loads: seq<string>, known: bool)

  datatype ErrorStatus = NoError | NoSuchName | OtherError(code: nat)

  datatype Pdu = Pdu(error: ErrorStatus, errorIndex: int, vbs: seq<Vb>)

  datatype Reason = Response | TimedOut | Failed(code: int)

  /** The pieces of text that are shown. */
  datatype Text =
    | Started
    | Loading(module_: string)
    | Object(n: int, oid: Oid)
    | ErrorObject(n: int, oid: Oid)
    | Break
    | Stopped
    | Finished
    | Totals(requests: int, objects: int)
    | TimeoutText
    | NoResponse(code: int)
    | ErrorText(status: ErrorStatus)
    | EmptyPdu
    | NotSent

  /** The fields of the agent object that the walk uses.  `seed` is the name in the outstanding
      request, `query` the texts appended to the window so far. */
  datatype State = State(theoid: Oid, objects: int, requests: int, msg: seq<Text>, stop: bool,
                         query: seq<seq<Text>>, seed: Oid, running: bool)

  // ---------- the callback as a function of the state ----------

  function Cleanup(s: State): State {
    s.(query := s.query + [s.msg], running := false)
  }

  function End(s: State): State {
    Cleanup(s.(msg := s.msg + [if s.stop then Stopped else Finished] + [Totals(s.requests, s.objects)]))
  }

  function LoadingTexts(loads: seq<string>): seq<Text> {
    seq(|loads|, i requires 0 <= i < |loads| => Loading(loads[i]))
  }

  function Flush(s: State): State {
    if s.objects % 10 == 0 then s.(query := s.query + [s.msg], msg := [])
    else s.(msg := s.msg + [Break])
  }

  predicate Faulty(pdu: Pdu, z: nat)
    requires z < |pdu.vbs|
  {
    var x := pdu.vbs[z].binding.syntax;
    x.NoSuchObject? || x.NoSuchInstance? || (!pdu.error.NoError? && z + 1 == pdu.errorIndex)
  }

  /** The binding ends the walk before it is counted. */
  predicate OutOfScope(s: State, vb: Vb) {
    vb.binding.syntax.EndOfMibView? || NCompare(vb.binding.oid, |s.theoid|, s.theoid) != 0
  }

  /** A counted binding: the new state, and whether it ends the walk. */
  function Count(s: State, pdu: Pdu, z: nat): (State, bool)
    requires z < |pdu.vbs|
  {
    var vb := pdu.vbs[z];
    var c := s.(objects := s.objects + 1, msg := s.msg + LoadingTexts(vb.loads));
    if Faulty(pdu, z) then
      var d := c.(msg := c.msg + [ErrorObject(c.objects, vb.binding.oid)]);
      if vb.known then (d, true) else (Flush(d), false)
    else (Flush(c.(msg := c.msg + [Object(c.objects, vb.binding.oid)])), false)
  }

  /** The loop over the bindings, from binding `z`. */
  function Scan(s: State, pdu: Pdu, z: nat): (State, bool)
    decreases |pdu.vbs| - z
  {
    if z >= |pdu.vbs| then (s, false)
    else if OutOfScope(s, pdu.vbs[z]) then (s, true)
    else
      var (c, ended) := Count(s, pdu, z);
      if ended then (c, true) else Scan(c, pdu, z + 1)
  }

  /** The last binding read by the loop; an empty one when the loop does not run. */
  function LastName(pdu: Pdu, start: nat): Oid {
    if start < |pdu.vbs| then pdu.vbs[|pdu.vbs| - 1].binding.oid else []
  }

  function Continue(s: State, pdu: Pdu, start: nat, sent: bool): State {
    var (c, ended) := Scan(s.(requests := s.requests + 1), pdu, start);
    if ended || c.stop then End(c)
    else if sent then c.(seed := LastName(pdu, start))
    else Cleanup(c.(seed := LastName(pdu, start), msg := [NotSent]))
  }

  function Respond(s: State, reason: Reason, pdu: Pdu, sent: bool): State {
    match reason
    case TimedOut => Cleanup(s.(msg := [TimeoutText]))
    case Failed(code) => Cleanup(s.(msg := [NoResponse(code)]))
    case Response =>
      if pdu.error.NoSuchName? then End(s)
      else if !pdu.error.NoError? && pdu.errorIndex <= 0 then Cleanup(s.(msg := [ErrorText(pdu.error)]))
      else
        var start := if pdu.error.NoError? then 0 else pdu.errorIndex - 1;
        var c := if pdu.error.NoError? then s else s.(objects := start);
        if pdu.vbs == [] then Cleanup(c.(msg := [EmptyPdu]))
        else Continue(c, pdu, start, sent)
  }

  /** The state after a walk was requested; `sent` says whether the first request went out. */
  function Start(root: Oid, sent: bool): State {
    if sent then State(root, 0, 0, [], false, [[Started]], root, true)
    else State(root, 0, 0, [NotSent], false, [[Started], [NotSent]], root, false)
  }

  // ---------- the agent object ----------

  class Agent {
    var theoid: Oid
    var objects: int
    var requests: int
    var msg: seq<Text>
    var stop: bool
    var query: seq<seq<Text>>
    var seed: Oid
    var running: bool

    constructor ()
      ensures !running
    {
      theoid, objects, requests, msg, stop, query, seed, running := [], 0, 0, [], false, [], [], false;
    }

    ghost function S(): State
      reads this
    {
      State(theoid, objects, requests, msg, stop, query, seed, running)
    }

    method WalkFrom(oid: Oid, sent: bool)
      modifies this
      ensures S() == Start(oid, sent)
    {
      theoid := oid;
      query := [];
      query := query + [[Started]];
      requests, objects, msg, stop := 0, 0, [], false;
      seed := oid;
      running := sent;
      if !sent {
        msg := [NotSent];
        query := query + [msg];
      }
    }

    method Stop()
      modifies this
      ensures S() == old(S()).(stop := true)
    {
      stop := true;
    }

    method DoCleanup()
      modifies this
      ensures S() == Cleanup(old(S()))
    {
      query := query + [msg];
      running := false;
    }

    method DoEnd()
      modifies this
      ensures S() == End(old(S()))
    {
      msg := msg + [if stop then Stopped else Finished];
      msg := msg + [Totals(requests, objects)];
      DoCleanup();
    }

    method ShowBinding(pdu: Pdu, z: nat) returns (ended: bool)
      requires z < |pdu.vbs|
      modifies this
      ensures (S(), ended) == Count(old(S()), pdu, z)
    {
      var vb := pdu.vbs[z];
      objects := objects + 1;
      msg := msg + LoadingTexts(vb.loads);
      if Faulty(pdu, z) {
        msg := msg + [ErrorObject(objects, vb.binding.oid)];
        if vb.known {
          return true;
        }
      } else {
        msg := msg + [Object(objects, vb.binding.oid)];
      }
      if objects % 10 == 0 {
        query := query + [msg];
        msg := [];
      } else {
        msg := msg + [Break];
      }
      ended := false;
    }

    method ReadBindings(pdu: Pdu, start: nat) returns (ended: bool)
      modifies this
      ensures (S(), ended) == Scan(old(S()), pdu, start)
    {
      var z := start;
      while z < |pdu.vbs|
        invariant Scan(S(), pdu, z) == Scan(old(S()), pdu, start)
        decreases |pdu.vbs| - z
      {
        var vb := pdu.vbs[z];
        if vb.binding.syntax.EndOfMibView? || NCompare(vb.binding.oid, |theoid|, theoid) != 0 {
          return true;
        }
        ended := ShowBinding(pdu, z);
        if ended {
          return;
        }
        z := z + 1;
      }
      ended := false;
    }

    method AsyncCallback(reason: Reason, pdu: Pdu, sent: bool)
      modifies this
      ensures S() == Respond(old(S()), reason, pdu, sent)
    {
      hide Scan;
      var start: nat := 0;
      if !reason.Response? {
        msg := if reason.TimedOut? then [TimeoutText] else [NoResponse(reason.code)];
        DoCleanup();
        return;
      }
      if !pdu.error.NoError? {
        if pdu.error.NoSuchName? {
          DoEnd();
          return;
        }
        if pdu.errorIndex > 0 {
          start := pdu.errorIndex - 1;
          objects := start;
        } else {
          msg := [ErrorText(pdu.error)];
          DoCleanup();
          return;
        }
      }
      if |pdu.vbs| == 0 {
        msg := [EmptyPdu];
        DoCleanup();
        return;
      }
      requests := requests + 1;
      var ended := ReadBindings(pdu, start);
      if ended || stop {
        DoEnd();
        return;
      }
      seed := LastName(pdu, start);
      if !sent {
        msg := [NotSent];
        DoCleanup();
      }
    }
  }
}
