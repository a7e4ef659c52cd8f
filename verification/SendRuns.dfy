/** What happens to one request over any run of the send list: conservation, single delivery, the
    retransmission schedule, and the finality of an acknowledgement. */
module SendRuns {
  import opened Machine
  import opened SendState

  function Find(nodes: seq<Node>, serial: nat): Option<Node> {
    if nodes == [] then None
    else if nodes[0].serial == serial then Some(nodes[0])
    else Find(nodes[1..], serial)
  }

  function Count(log: seq<Event>, e: Event): nat { multiset(log)[e] }

  /** Everything the list and its past say about one request. */
  datatype Track = Track(node: Option<Node>, added: nat, resent: nat, answered: nat, timedOut: nat)

  const UNKNOWN := Track(None, 0, 0, 0, 0)

  function TrackOf(s: State, u: nat): Track {
    Track(Find(s.nodes, u), Count(s.log, Added(u)), Count(s.log, Resent(u)),
          Count(s.log, Answered(u, TokenOf(u))), Count(s.log, TimedOut(u)))
  }

  function AckTarget(s: State, msgid: u16): Option<nat> {
    var i := FirstById(s.nodes, msgid);
    if i == |s.nodes| then None else Some(s.nodes[i].serial)
  }

  function ResponseTarget(s: State, token: seq<u8>): Option<nat> {
    var i := FirstByToken(s.nodes, token);
    if i == |s.nodes| then None else Some(s.nodes[i].serial)
  }

  predicate Acks(s: State, step: Step, u: nat) { step.Ack? && AckTarget(s, step.msgid) == Some(u) }

  predicate Answers(s: State, step: Step, u: nat) { step.Response? && ResponseTarget(s, step.token) == Some(u) }

  function TickTrack(t: Track): Track {
    match t.node
    case None => t
    case Some(n) =>
      var k := TickNode(n);
      Track(if k.dropped then None else Some(k.node), t.added, t.resent + (if k.resent then 1 else 0),
            t.answered, t.timedOut + (if k.dropped then 1 else 0))
  }

  /** What a step means for a request that was generated before it. */
  function Effect(s: State, step: Step, u: nat, t: Track): Track {
    if step.Sweep? then TickTrack(t)
    else if Acks(s, step, u) && t.node.Some? then t.(node := Some(t.node.value.(acked := true)))
    else if Answers(s, step, u) then t.(node := None, answered := t.answered + 1)
    else t
  }

  // ---------------------------------------------------------------- looking up nodes

  lemma {:induction false} FindAt(nodes: seq<Node>, generated: nat, i: nat)
    requires NodesOk(nodes, generated) && i < |nodes|
    ensures Find(nodes, nodes[i].serial) == Some(nodes[i])
  {
    if i > 0 {
      assert nodes[0].serial < nodes[i].serial;
      assert nodes[1..][i - 1] == nodes[i];
      FindAt(nodes[1..], generated, i - 1);
    }
  }

  lemma {:induction false} FoundAt(nodes: seq<Node>, u: nat) returns (i: nat)
    requires Find(nodes, u).Some?
    ensures i < |nodes| && nodes[i] == Find(nodes, u).value && nodes[i].serial == u
  {
    if nodes[0].serial == u {
      i := 0;
    } else {
      var k := FoundAt(nodes[1..], u);
      i := k + 1;
    }
  }

  lemma {:induction false} FindAppend(nodes: seq<Node>, more: seq<Node>, u: nat)
    ensures Find(nodes + more, u) == if Find(nodes, u).Some? then Find(nodes, u) else Find(more, u)
  {
    if nodes == [] {
      assert nodes + more == more;
    } else {
      assert (nodes + more)[1..] == nodes[1..] + more;
      FindAppend(nodes[1..], more, u);
    }
  }

  lemma {:induction false} FindBelow(nodes: seq<Node>, generated: nat, u: nat)
    requires NodesOk(nodes, generated) && generated <= u
    ensures Find(nodes, u) == None
  {
    if nodes != [] {
      FindBelow(nodes[1..], generated, u);
    }
  }

  lemma {:induction false} FindUpdate(nodes: seq<Node>, generated: nat, i: nat, m: Node, u: nat)
    requires NodesOk(nodes, generated) && i < |nodes| && m.serial == nodes[i].serial
    ensures Find(nodes[i := m], u) == if u == m.serial then Some(m) else Find(nodes, u)
  {
    var updated := nodes[i := m];
    if i == 0 {
      assert updated[1..] == nodes[1..];
    } else {
      assert updated[1..] == nodes[1..][i - 1 := m];
      assert nodes[0].serial < nodes[i].serial;
      FindUpdate(nodes[1..], generated, i - 1, m, u);
    }
  }

  lemma {:induction false} FindRemove(nodes: seq<Node>, generated: nat, i: nat, u: nat)
    requires NodesOk(nodes, generated) && i < |nodes|
    ensures Find(nodes[..i] + nodes[i + 1..], u) == if u == nodes[i].serial then None else Find(nodes, u)
  {
    var removed := nodes[..i] + nodes[i + 1..];
    if i == 0 {
      assert removed == nodes[1..];
      if u == nodes[0].serial {
        AbsentAfter(nodes[1..], u);
      }
    } else {
      assert removed[0] == nodes[0];
      assert removed[1..] == nodes[1..][..i - 1] + nodes[1..][i..];
      FindRemove(nodes[1..], generated, i - 1, u);
    }
  }

  lemma {:induction false} AbsentAfter(nodes: seq<Node>, u: nat)
    requires forall k :: 0 <= k < |nodes| ==> u < nodes[k].serial
    ensures Find(nodes, u) == None
  {
    if nodes != [] {
      AbsentAfter(nodes[1..], u);
    }
  }

  // ---------------------------------------------------------------- one step

  lemma {:induction false} CountAppend(a: seq<Event>, b: seq<Event>, e: Event)
    ensures Count(a + b, e) == Count(a, e) + Count(b, e)
  {
    assert multiset(a + b) == multiset(a) + multiset(b);
  }

  lemma {:induction false} TickEventCounts(n: Node, u: nat)
    ensures Count(TickEvents(n), Resent(u)) == if n.serial == u && TickNode(n).resent then 1 else 0
    ensures Count(TickEvents(n), TimedOut(u)) == if n.serial == u && TickNode(n).dropped then 1 else 0
    ensures Count(TickEvents(n), Added(u)) == 0 && Count(TickEvents(n), Answered(u, TokenOf(u))) == 0
  {
    hide TokenOf;
    var t := TickNode(n);
    var a := if t.resent then [Resent(n.serial)] else [];
    var b := if t.dropped then [TimedOut(n.serial)] else [];
    CountAppend(a, b, Resent(u));
    CountAppend(a, b, TimedOut(u));
    CountAppend(a, b, Added(u));
    CountAppend(a, b, Answered(u, TokenOf(u)));
  }

  lemma {:induction false} FindSweep(nodes: seq<Node>, generated: nat, u: nat)
    requires NodesOk(nodes, generated)
    ensures Find(SweepNodes(nodes), u) == match Find(nodes, u)
      case None => None
      case Some(n) => if TickNode(n).dropped then None else Some(TickNode(n).node)
  {
    if nodes != [] {
      FindSweep(nodes[1..], generated, u);
      SweepHead(nodes, u);
      if nodes[0].serial == u {
        AbsentAfter(nodes[1..], u);
      }
    }
  }

  lemma {:induction false} CountSweep(nodes: seq<Node>, generated: nat, u: nat)
    requires NodesOk(nodes, generated)
    ensures Count(SweepEvents(nodes), Resent(u))
         == if Find(nodes, u).Some? && TickNode(Find(nodes, u).value).resent then 1 else 0
    ensures Count(SweepEvents(nodes), TimedOut(u))
         == if Find(nodes, u).Some? && TickNode(Find(nodes, u).value).dropped then 1 else 0
    ensures Count(SweepEvents(nodes), Added(u)) == 0 && Count(SweepEvents(nodes), Answered(u, TokenOf(u))) == 0
  {
    if nodes != [] {
      var n, rest := nodes[0], nodes[1..];
      CountSweep(rest, generated, u);
      TickEventCounts(n, u);
      assert SweepEvents(nodes) == TickEvents(n) + SweepEvents(rest);
      if n.serial == u {
        AbsentAfter(rest, u);
      }
      hide TickNode, TickEvents, TokenOf, Count, SweepEvents, NodesOk;
      CountAppend(TickEvents(n), SweepEvents(rest), Resent(u));
      CountAppend(TickEvents(n), SweepEvents(rest), TimedOut(u));
      CountAppend(TickEvents(n), SweepEvents(rest), Added(u));
      CountAppend(TickEvents(n), SweepEvents(rest), Answered(u, TokenOf(u)));
    } else {
      assert SweepEvents(nodes) == [];
    }
  }

  lemma {:induction false} SweepHead(nodes: seq<Node>, u: nat)
    requires nodes != []
    ensures Find(SweepNodes(nodes), u)
         == if nodes[0].serial == u && !TickNode(nodes[0]).dropped then Some(TickNode(nodes[0]).node)
            else Find(SweepNodes(nodes[1..]), u)
  {
    var t, rest := TickNode(nodes[0]), SweepNodes(nodes[1..]);
    assert t.node.serial == nodes[0].serial;
    if t.dropped {
      assert SweepNodes(nodes) == rest;
    } else {
      assert SweepNodes(nodes) == [t.node] + rest;
      assert SweepNodes(nodes)[1..] == rest;
    }
  }

  lemma {:induction false} RequestFind(s: State, call: Call, u: nat)
    requires Inv(s)
    ensures Find(DoRequest(s, call).nodes, u) == if u == s.generated && call.net.Written?
      then Some(NewNode(u, call.con, IdOf(u), TokenOf(u))) else Find(s.nodes, u)
    ensures call.net.Written? && u == s.generated ==> Find(s.nodes, u) == None
  {
    CountersAdvance(s);
    hide Low32, Low8, TokenBytes, TokenOf, IdOf, NextId, AfterId, NodesOk;
    FindAppend(s.nodes, [NewNode(s.generated, call.con, NextId(s.messageId), TokenBytes(s.coapToken))], u);
    if u == s.generated {
      FindBelow(s.nodes, s.generated, u);
    }
  }

  lemma {:induction false} RequestCounts(s: State, call: Call, u: nat)
    ensures var log := DoRequest(s, call).log;
      && Count(log, Added(u)) == Count(s.log, Added(u)) + (if u == s.generated && call.net.Written? then 1 else 0)
      && Count(log, Resent(u)) == Count(s.log, Resent(u)) && Count(log, TimedOut(u)) == Count(s.log, TimedOut(u))
      && Count(log, Answered(u, TokenOf(u))) == Count(s.log, Answered(u, TokenOf(u)))
  {
    hide TokenOf, TokenBytes, Low32, Low8, NextId, AfterId, Count;
    var g := s.generated;
    var sent := s.(log := s.log + [Sent(g)]);
    LogTrack(s, Sent(g), u);
    LogTrack(sent, Added(g), u);
    assert s.log + [Sent(g), Added(g)] == sent.log + [Added(g)];
  }

  lemma {:induction false} RequestTrack(s: State, call: Call, u: nat)
    requires Inv(s)
    ensures TrackOf(DoRequest(s, call), u) == if u == s.generated && call.net.Written?
      then TrackOf(s, u).(node := Some(NewNode(u, call.con, IdOf(u), TokenOf(u))), added := TrackOf(s, u).added + 1)
      else TrackOf(s, u)
  {
    RequestFind(s, call, u);
    RequestCounts(s, call, u);
    hide Inv, DoRequest, Count, TokenOf, IdOf, NewNode;
  }

  lemma {:induction false} RequestsTrack(s: State, calls: seq<Call>, u: nat)
    requires Inv(s) && u < s.generated
    ensures TrackOf(DoRequests(s, calls), u) == TrackOf(s, u)
    decreases |calls|
  {
    if calls != [] {
      RequestTrack(s, calls[0], u);
      RequestKeepsInv(s, calls[0]);
      RequestsTrack(DoRequest(s, calls[0]), calls[1..], u);
    }
  }

  lemma {:induction false} LogTrack(s: State, e: Event, u: nat)
    ensures TrackOf(s.(log := s.log + [e]), u) == match e
      case Added(v) => TrackOf(s, u).(added := TrackOf(s, u).added + (if u == v then 1 else 0))
      case Resent(v) => TrackOf(s, u).(resent := TrackOf(s, u).resent + (if u == v then 1 else 0))
      case TimedOut(v) => TrackOf(s, u).(timedOut := TrackOf(s, u).timedOut + (if u == v then 1 else 0))
      case Answered(v, token) =>
        TrackOf(s, u).(answered := TrackOf(s, u).answered + (if u == v && token == TokenOf(u) then 1 else 0))
      case _ => TrackOf(s, u)
  {
    hide TokenOf;
    CountAppend(s.log, [e], Added(u));
    CountAppend(s.log, [e], Resent(u));
    CountAppend(s.log, [e], Answered(u, TokenOf(u)));
    CountAppend(s.log, [e], TimedOut(u));
  }

  lemma {:induction false} SweepEffect(s: State, u: nat)
    requires Inv(s)
    ensures TrackOf(DoSweep(s), u) == TickTrack(TrackOf(s, u))
  {
    FindSweep(s.nodes, s.generated, u);
    CountSweep(s.nodes, s.generated, u);
    hide SweepNodes, SweepEvents, TickNode, TokenOf, Count;
    CountAppend(s.log, SweepEvents(s.nodes), Added(u));
    CountAppend(s.log, SweepEvents(s.nodes), Resent(u));
    CountAppend(s.log, SweepEvents(s.nodes), Answered(u, TokenOf(u)));
    CountAppend(s.log, SweepEvents(s.nodes), TimedOut(u));
  }

  lemma {:induction false} AckEffect(s: State, msgid: u16, u: nat)
    requires Inv(s)
    ensures TrackOf(DoAck(s, msgid), u) == Effect(s, Ack(msgid), u, TrackOf(s, u))
  {
    hide Count, TokenOf;
    var i := FirstById(s.nodes, msgid);
    if i < |s.nodes| {
      FindUpdate(s.nodes, s.generated, i, s.nodes[i].(acked := true), u);
      FindAt(s.nodes, s.generated, i);
    }
  }

  lemma {:induction false} RemoveTrack(s: State, i: nat, u: nat)
    requires Inv(s) && i < |s.nodes|
    ensures TrackOf(s.(nodes := s.nodes[..i] + s.nodes[i + 1..], count := Low8(s.count - 1)), u)
         == if u == s.nodes[i].serial then TrackOf(s, u).(node := None) else TrackOf(s, u)
  {
    hide Count, TokenOf, NodesOk;
    FindRemove(s.nodes, s.generated, i, u);
  }

  /** The state in which a matched handler starts to run. */
  function HandlerState(s: State, con: bool, msgid: u16, i: nat): State
    requires i < |s.nodes|
  {
    var t := if con then s.(log := s.log + [AckSent(msgid)]) else s;
    t.(log := t.log + [Answered(s.nodes[i].serial, s.nodes[i].token)])
  }

  lemma {:induction false} HandlerTrack(s: State, con: bool, msgid: u16, i: nat, u: nat)
    requires Inv(s) && i < |s.nodes|
    ensures var v := HandlerState(s, con, msgid, i);
      && Inv(v) && v.nodes == s.nodes && v.generated == s.generated
      && TrackOf(v, u) == if u == s.nodes[i].serial
                          then TrackOf(s, u).(answered := TrackOf(s, u).answered + 1) else TrackOf(s, u)
  {
    assert s.nodes[i].token == TokenOf(s.nodes[i].serial);
    hide TokenOf, TrackOf, NodesOk;
    var t := if con then s.(log := s.log + [AckSent(msgid)]) else s;
    LogTrack(s, AckSent(msgid), u);
    LogTrack(t, Answered(s.nodes[i].serial, s.nodes[i].token), u);
    InvIgnoresLog(s, HandlerState(s, con, msgid, i).log);
  }

  lemma {:induction false} ResponseTrack(s: State, con: bool, msgid: u16, token: seq<u8>, calls: seq<Call>, u: nat)
    requires Inv(s) && u < s.generated
    ensures TrackOf(DoResponse(s, con, msgid, token, calls), u)
         == if ResponseTarget(s, token) == Some(u)
            then TrackOf(s, u).(node := None, answered := TrackOf(s, u).answered + 1) else TrackOf(s, u)
  {
    hide Inv, TrackOf;
    var i := FirstByToken(s.nodes, token);
    LogTrack(s, AckSent(msgid), u);
    if i < |s.nodes| {
      HandlerTrack(s, con, msgid, i, u);
      var v := HandlerState(s, con, msgid, i);
      RequestsTrack(v, calls, u);
      RequestsKeepInv(v, calls);
      DoRequestsKeepsNodes(v, calls);
      RemoveTrack(DoRequests(v, calls), i, u);
    }
  }

  /** A step does to every earlier request exactly what Effect says. */
  lemma {:induction false} StepEffect(s: State, step: Step, u: nat)
    requires Inv(s) && u < s.generated
    ensures TrackOf(DoStep(s, step), u) == Effect(s, step, u, TrackOf(s, u))
  {
    hide Inv, DoRequest, DoAck, DoResponse, DoSweep, TrackOf;
    match step
    case Request(call) => RequestTrack(s, call, u);
    case Ack(msgid) => AckEffect(s, msgid, u);
    case Response(con, msgid, token, calls) => ResponseTrack(s, con, msgid, token, calls, u);
    case Sweep => SweepEffect(s, u);
  }

  // ---------------------------------------------------------------- conservation

  /** A request is added at most once, and then it is in exactly one place: listed, answered, timed out. */
  predicate Conserved(s: State, u: nat) {
    var t := TrackOf(s, u);
    && t.added <= 1
    && t.added == (if t.node.Some? then 1 else 0) + t.answered + t.timedOut
    && (s.generated <= u ==> t == UNKNOWN)
  }

  /** No handler ever ran with a token other than the one its request was sent with. */
  predicate AnswersCarryTokens(log: seq<Event>) {
    forall k :: 0 <= k < |log| && log[k].Answered? ==> log[k].token == TokenOf(log[k].serial)
  }

  lemma {:induction false} RequestsCarryTokens(s: State, calls: seq<Call>)
    requires AnswersCarryTokens(s.log)
    ensures AnswersCarryTokens(DoRequests(s, calls).log)
    decreases |calls|
  {
    hide TokenOf;
    if calls != [] {
      RequestsCarryTokens(DoRequest(s, calls[0]), calls[1..]);
    }
  }

  lemma {:induction false} SweepNeverAnswers(nodes: seq<Node>)
    ensures forall k :: 0 <= k < |SweepEvents(nodes)| ==> !SweepEvents(nodes)[k].Answered?
  {
    if nodes != [] {
      SweepNeverAnswers(nodes[1..]);
    }
  }

  lemma {:induction false} StepCarriesTokens(s: State, step: Step)
    requires Inv(s) && AnswersCarryTokens(s.log)
    ensures AnswersCarryTokens(DoStep(s, step).log)
  {
    match step
    case Request(call) => RequestsCarryTokens(s, [call]);
    case Ack(msgid) =>
    case Response(con, msgid, token, calls) =>
      var i := FirstByToken(s.nodes, token);
      if i < |s.nodes| {
        assert NodeOk(s.nodes[i], s.generated);
        hide TokenOf, DoRequests;
        RequestsCarryTokens(HandlerState(s, con, msgid, i), calls);
      }
    case Sweep => SweepNeverAnswers(s.nodes);
  }

  lemma {:induction false} RunCarriesTokens(s: State, steps: seq<Step>)
    requires Inv(s) && AnswersCarryTokens(s.log)
    ensures AnswersCarryTokens(Run(s, steps).log)
    decreases |steps|
  {
    if steps != [] {
      StepKeepsInv(s, steps[0]);
      StepCarriesTokens(s, steps[0]);
      RunCarriesTokens(DoStep(s, steps[0]), steps[1..]);
    }
  }

  lemma {:induction false} RequestsConserve(s: State, calls: seq<Call>, u: nat)
    requires Inv(s) && Conserved(s, u)
    ensures Conserved(DoRequests(s, calls), u)
    decreases |calls|
  {
    if calls != [] {
      RequestTrack(s, calls[0], u);
      RequestKeepsInv(s, calls[0]);
      var t := DoRequest(s, calls[0]);
      assert Conserved(t, u) by { hide TrackOf; }
      RequestsConserve(t, calls[1..], u);
    }
  }

  lemma TickConserves(t: Track)
    ensures var k := TickTrack(t);
      && k.added == t.added && k.answered == t.answered
      && (if k.node.Some? then 1 else 0) + k.timedOut == (if t.node.Some? then 1 else 0) + t.timedOut
  {
  }

  lemma {:induction false} ConservedCopy(s: State, t: State, u: nat)
    requires Conserved(s, u) && TrackOf(t, u) == TrackOf(s, u) && t.generated == s.generated
    ensures Conserved(t, u)
  {
    hide TrackOf;
  }

  lemma {:induction false} ResponseConservesOld(s: State, con: bool, msgid: u16, token: seq<u8>,
                                                calls: seq<Call>, u: nat)
    requires Inv(s) && Conserved(s, u) && u < s.generated
    ensures Conserved(DoResponse(s, con, msgid, token, calls), u)
  {
    ResponseTrack(s, con, msgid, token, calls, u);
    DoResponseGenerates(s, con, msgid, token, calls);
    if ResponseTarget(s, token).Some? {
      TargetIsListed(s, token);
    }
    hide TrackOf, Inv, DoResponse, ResponseTarget;
  }

  lemma {:induction false} ResponseConservesNew(s: State, con: bool, msgid: u16, token: seq<u8>,
                                                calls: seq<Call>, u: nat)
    requires Inv(s) && Conserved(s, u) && s.generated <= u
    ensures Conserved(DoResponse(s, con, msgid, token, calls), u)
  {
    hide TrackOf, Inv, Conserved;
    var i := FirstByToken(s.nodes, token);
    var t := s.(log := s.log + [AckSent(msgid)]);
    LogTrack(s, AckSent(msgid), u);
    if i == |s.nodes| {
      ConservedCopy(s, if con then t else s, u);
    } else {
      var v := HandlerState(s, con, msgid, i);
      HandlerTrack(s, con, msgid, i, u);
      SerialIsGenerated(s, i);
      ConservedCopy(s, v, u);
      RequestsConserve(v, calls, u);
      RequestsKeepInv(v, calls);
      DoRequestsKeepsNodes(v, calls);
      var w := DoRequests(v, calls);
      RemoveTrack(w, i, u);
      ConservedCopy(w, DoResponse(s, con, msgid, token, calls), u);
    }
  }

  lemma SerialIsGenerated(s: State, i: nat)
    requires Inv(s) && i < |s.nodes|
    ensures s.nodes[i].serial < s.generated
  {
  }

  lemma {:induction false} TargetIsListed(s: State, token: seq<u8>)
    requires Inv(s) && ResponseTarget(s, token).Some?
    ensures TrackOf(s, ResponseTarget(s, token).value).node.Some?
  {
    hide TokenOf, IdOf, Count;
    FindAt(s.nodes, s.generated, FirstByToken(s.nodes, token));
  }

  lemma {:induction false} DoResponseGenerates(s: State, con: bool, msgid: u16, token: seq<u8>, calls: seq<Call>)
    ensures s.generated <= DoResponse(s, con, msgid, token, calls).generated
  {
    var i := FirstByToken(s.nodes, token);
    if i < |s.nodes| {
      var t := if con then s.(log := s.log + [AckSent(msgid)]) else s;
      DoRequestsKeepsNodes(t.(log := t.log + [Answered(s.nodes[i].serial, token)]), calls);
    }
  }

  lemma {:induction false} StepConserves(s: State, step: Step, u: nat)
    requires Inv(s) && Conserved(s, u)
    ensures Conserved(DoStep(s, step), u)
  {
    hide Inv, TrackOf, DoRequest, DoAck, DoSweep, DoResponse;
    match step
    case Request(call) =>
      RequestTrack(s, call, u);
      assert s.generated <= DoRequest(s, call).generated by { RequestGenerates(s, call); }
      assert call.net.Written? ==> s.generated < DoRequest(s, call).generated by { RequestGenerates(s, call); }
    case Response(con, msgid, token, calls) =>
      if u < s.generated {
        ResponseConservesOld(s, con, msgid, token, calls, u);
      } else {
        ResponseConservesNew(s, con, msgid, token, calls, u);
      }
    case Ack(msgid) =>
      AckEffect(s, msgid, u);
      assert DoAck(s, msgid).generated == s.generated by { AckGenerates(s, msgid); }
    case Sweep =>
      SweepEffect(s, u);
      TickConserves(TrackOf(s, u));
      assert DoSweep(s).generated == s.generated by { SweepGenerates(s); }
  }

  lemma RequestGenerates(s: State, call: Call)
    ensures DoRequest(s, call).generated == s.generated + (if call.net.Rejected? then 0 else 1)
  {
  }

  lemma AckGenerates(s: State, msgid: u16)
    ensures DoAck(s, msgid).generated == s.generated
  {
  }

  lemma SweepGenerates(s: State)
    ensures DoSweep(s).generated == s.generated
  {
  }

  lemma {:induction false} RunConserves(s: State, steps: seq<Step>, u: nat)
    requires Inv(s) && Conserved(s, u)
    ensures Conserved(Run(s, steps), u)
    decreases |steps|
  {
    if steps != [] {
      StepKeepsInv(s, steps[0]);
      StepConserves(s, steps[0], u);
      RunConserves(DoStep(s, steps[0]), steps[1..], u);
    }
  }

  /** Conservation and single delivery, over every run from an empty list. */
  lemma {:induction false} Conservation(steps: seq<Step>, u: nat)
    ensures Conserved(Run(INITIAL, steps), u)
    ensures TrackOf(Run(INITIAL, steps), u).answered <= 1
    ensures AnswersCarryTokens(Run(INITIAL, steps).log)
  {
    RunCarriesTokens(INITIAL, steps);
    assert TrackOf(INITIAL, u) == UNKNOWN;
    RunConserves(INITIAL, steps, u);
  }

  /** With fewer than 2^32 requests generated, a response carrying the token of request `u` answers
      that request if it is listed, no other request ever, and removes nothing else. */
  lemma {:induction false} ResponseExactness(s: State, con: bool, msgid: u16, calls: seq<Call>, u: nat, v: nat)
    requires Inv(s) && s.generated <= 0x1_0000_0000 && u < s.generated && v < s.generated
    ensures TrackOf(DoResponse(s, con, msgid, TokenOf(u), calls), v)
         == if v == u && TrackOf(s, u).node.Some?
            then TrackOf(s, u).(node := None, answered := TrackOf(s, u).answered + 1) else TrackOf(s, v)
  {
    ResponseTrack(s, con, msgid, TokenOf(u), calls, v);
    TargetOfToken(s, u);
    if ResponseTarget(s, TokenOf(u)).Some? {
      TargetIsListed(s, TokenOf(u));
    }
  }

  lemma {:induction false} TargetOfToken(s: State, u: nat)
    requires Inv(s) && s.generated <= 0x1_0000_0000 && u < s.generated
    ensures ResponseTarget(s, TokenOf(u)) == if Find(s.nodes, u).Some? then Some(u) else None
  {
    var i := FirstByToken(s.nodes, TokenOf(u));
    assert TokenOf(u) != [];
    if i < |s.nodes| {
      SameToken(s, i, u);
      FindAt(s.nodes, s.generated, i);
    } else if Find(s.nodes, u).Some? {
      ListedHasToken(s, u);
      hide Inv, TokenOf, Find;
      assert false;
    }
  }

  lemma {:induction false} SameToken(s: State, i: nat, u: nat)
    requires Inv(s) && s.generated <= 0x1_0000_0000 && u < s.generated
    requires i < |s.nodes| && s.nodes[i].token == TokenOf(u)
    ensures s.nodes[i].serial == u
  {
    var w := s.nodes[i].serial;
    assert NodeOk(s.nodes[i], s.generated);
    hide TokenOf, NodesOk, NodeOk;
    NearbyTokensDiffer(if u < w then u else w, if u < w then w else u);
  }

  lemma {:induction false} NearbyTokensDiffer(i: nat, j: nat)
    requires i <= j < i + 0x1_0000_0000 && TokenOf(i) == TokenOf(j)
    ensures i == j
  {
    TokensDifferIff(i, j);
  }

  lemma {:induction false} ListedHasToken(s: State, u: nat)
    requires Inv(s) && Find(s.nodes, u).Some?
    ensures exists k :: 0 <= k < |s.nodes| && s.nodes[k].token == TokenOf(u)
  {
    var k := FoundAt(s.nodes, u);
    assert NodeOk(s.nodes[k], s.generated);
  }

  // ---------------------------------------------------------------- acknowledgements

  /** While at most 65534 ids have been generated, an acknowledgement marks the node it names and
      nothing else. */
  lemma {:induction false} AckExactness(s: State, msgid: u16, u: nat)
    requires Inv(s) && s.generated <= 65534
    ensures TrackOf(DoAck(s, msgid), u)
         == if u + 1 == msgid && TrackOf(s, u).node.Some?
            then TrackOf(s, u).(node := Some(TrackOf(s, u).node.value.(acked := true))) else TrackOf(s, u)
  {
    AckEffect(s, msgid, u);
    var i := FirstById(s.nodes, msgid);
    hide Count, TokenOf;
    if i < |s.nodes| {
      FindAt(s.nodes, s.generated, i);
      assert s.nodes[i].serial + 1 == msgid;
    } else if u + 1 == msgid && Find(s.nodes, u).Some? {
      var k := FoundAt(s.nodes, u);
      assert false;
    }
  }

  /** From an acknowledgement on, a node is never written to the network again; a confirmable one is
      never timed out either, so only a token match can remove it. */
  predicate AckedStays(before: Track, after: Track)
    requires before.node.Some?
  {
    && after.resent == before.resent
    && (after.node.Some? ==> after.node.value.acked && after.node.value.con == before.node.value.con)
    && (before.node.value.con ==> after.timedOut == before.timedOut)
    && (before.node.value.con && after.node == None ==> after.answered == before.answered + 1)
  }

  lemma {:induction false} AckedIsFinal(s: State, steps: seq<Step>, u: nat)
    requires Inv(s) && TrackOf(s, u).node.Some? && TrackOf(s, u).node.value.acked
    ensures AckedStays(TrackOf(s, u), TrackOf(Run(s, steps), u))
    decreases |steps|
  {
    ListedIsOk(s, u);
    if steps != [] {
      StepEffect(s, steps[0], u);
      StepKeepsInv(s, steps[0]);
      var t := DoStep(s, steps[0]);
      AckedTick(TrackOf(s, u));
      StepGenerates(s, steps[0]);
      hide TrackOf, Inv, TickTrack, DoStep;
      if TrackOf(t, u).node.Some? {
        AckedIsFinal(t, steps[1..], u);
      } else {
        GoneStaysGone(t, steps[1..], u);
      }
    }
  }

  lemma AckedTick(t: Track)
    requires t.node.Some? && t.node.value.acked && TimersOk(t.node.value)
    ensures AckedStays(t, TickTrack(t)) || (t.node.value.con == false && TickTrack(t).node == None)
    ensures TickTrack(t).resent == t.resent && TickTrack(t).answered == t.answered
    ensures t.node.value.con ==> TickTrack(t).node.Some?
  {
  }

  lemma {:induction false} ListedIsOk(s: State, u: nat)
    requires Inv(s) && TrackOf(s, u).node.Some?
    ensures u < s.generated && TrackOf(s, u).node.value.serial == u && TimersOk(TrackOf(s, u).node.value)
  {
    hide Count, TokenOf;
    var i := FoundAt(s.nodes, u);
    assert NodeOk(s.nodes[i], s.generated);
  }

  lemma {:induction false} StepGenerates(s: State, step: Step)
    ensures s.generated <= DoStep(s, step).generated
  {
    if step.Response? {
      DoResponseGenerates(s, step.con, step.msgid, step.token, step.calls);
    }
  }

  /** A request that has left the list never comes back: nothing more is recorded about it. */
  lemma {:induction false} GoneStaysGone(s: State, steps: seq<Step>, u: nat)
    requires Inv(s) && u < s.generated && TrackOf(s, u).node == None
    ensures TrackOf(Run(s, steps), u) == TrackOf(s, u)
    decreases |steps|
  {
    if steps != [] {
      StepEffect(s, steps[0], u);
      StepKeepsInv(s, steps[0]);
      StepGenerates(s, steps[0]);
      if Answers(s, steps[0], u) {
        TargetIsListed(s, steps[0].token);
      }
      hide TrackOf, Inv, DoStep;
      GoneStaysGone(DoStep(s, steps[0]), steps[1..], u);
    }
  }

  // ---------------------------------------------------------------- the retransmission schedule

  /** Sweeps until this node leaves the list if nobody answers it: the ranking function. */
  function SweepsLeft(n: Node): nat {
    n.timeout + (if !n.con then 1 else if n.retrans == 0 then 15 else if n.retrans == 1 then 10 else 1)
  }

  function ResendsLeft(n: Node): nat {
    if !n.con then 0 else if n.retrans == 0 then 3 else if n.retrans == 1 then 2 else 1
  }

  function Sweeps(steps: seq<Step>): nat {
    if steps == [] then 0 else (if steps[0].Sweep? then 1 else 0) + Sweeps(steps[1..])
  }

  /** No step answers the request, nor, if it is confirmable, acknowledges it. */
  predicate Undisturbed(s: State, steps: seq<Step>, u: nat, con: bool)
    decreases |steps|
  {
    steps == [] ||
    (!Answers(s, steps[0], u) && !(con && Acks(s, steps[0], u)) && Undisturbed(DoStep(s, steps[0]), steps[1..], u, con))
  }

  lemma TickSchedule(n: Node)
    requires TimersOk(n) && !(n.con && n.acked)
    ensures var t := TickNode(n);
      && (t.dropped <==> SweepsLeft(n) == 1)
      && (t.dropped ==> ResendsLeft(n) == (if t.resent then 1 else 0))
      && (!t.dropped ==> SweepsLeft(t.node) == SweepsLeft(n) - 1)
      && (!t.dropped ==> ResendsLeft(t.node) + (if t.resent then 1 else 0) == ResendsLeft(n))
      && t.node.con == n.con && t.node.acked == n.acked
  {
  }

  /** Where an undisturbed request stands after `k` more sweeps. */
  predicate OnSchedule(before: Track, n: Node, after: Track, k: nat) {
    if k < SweepsLeft(n) then
      && after.node.Some? && after.node.value.con == n.con
      && SweepsLeft(after.node.value) == SweepsLeft(n) - k
      && after.resent + ResendsLeft(after.node.value) == before.resent + ResendsLeft(n)
      && after.timedOut == before.timedOut && after.answered == before.answered
    else
      && after.node == None
      && after.resent == before.resent + ResendsLeft(n)
      && after.timedOut == before.timedOut + 1 && after.answered == before.answered
  }

  lemma {:induction false} Schedule(s: State, steps: seq<Step>, u: nat, n: Node)
    requires Inv(s) && TrackOf(s, u).node == Some(n) && !(n.con && n.acked)
    requires Undisturbed(s, steps, u, n.con)
    ensures OnSchedule(TrackOf(s, u), n, TrackOf(Run(s, steps), u), Sweeps(steps))
    decreases |steps|
  {
    ListedIsOk(s, u);
    if steps != [] {
      var t := DoStep(s, steps[0]);
      StepEffect(s, steps[0], u);
      StepKeepsInv(s, steps[0]);
      StepGenerates(s, steps[0]);
      EffectOnSchedule(s, steps[0], u, TrackOf(s, u), n);
      hide TrackOf, Inv, DoStep, Acks, Answers, OnSchedule, Effect, SweepsLeft, ResendsLeft;
      var k := if steps[0].Sweep? then 1 else 0;
      if TrackOf(t, u).node.Some? {
        var m := TrackOf(t, u).node.value;
        Schedule(t, steps[1..], u, m);
        ScheduleJoins(TrackOf(s, u), n, TrackOf(t, u), k, m, TrackOf(Run(s, steps), u), Sweeps(steps[1..]));
      } else {
        GoneStaysGone(t, steps[1..], u);
        ScheduleEnds(TrackOf(s, u), n, TrackOf(t, u), k, Sweeps(steps[1..]));
      }
    }
  }

  lemma {:induction false} EffectOnSchedule(s: State, step: Step, u: nat, t: Track, n: Node)
    requires t.node == Some(n) && TimersOk(n) && !(n.con && n.acked)
    requires !Answers(s, step, u) && !(n.con && Acks(s, step, u))
    ensures var after := Effect(s, step, u, t);
      && OnSchedule(t, n, after, if step.Sweep? then 1 else 0)
      && (after.node.Some? ==> after.node.value.con == n.con && !(n.con && after.node.value.acked))
  {
    hide Acks, Answers;
    TickSchedule(n);
    hide TickNode;
  }

  lemma {:induction false} ScheduleJoins(a: Track, n: Node, b: Track, j: nat, m: Node, c: Track, k: nat)
    requires OnSchedule(a, n, b, j) && b.node == Some(m) && OnSchedule(b, m, c, k)
    ensures OnSchedule(a, n, c, j + k)
  {
    hide SweepsLeft, ResendsLeft;
  }

  lemma {:induction false} ScheduleEnds(a: Track, n: Node, b: Track, j: nat, k: nat)
    requires OnSchedule(a, n, b, j) && b.node == None
    ensures OnSchedule(a, n, b, j + k)
  {
    hide SweepsLeft, ResendsLeft;
  }

  /** A confirmable request nobody acknowledges or answers: resent on its 3rd, 8th and 17th sweep,
      gone on the 17th and not before. */
  lemma {:induction false} ConfirmableRun(s: State, steps: seq<Step>, u: nat)
    requires Inv(s) && TrackOf(s, u).node == Some(NewNode(u, true, IdOf(u), TokenOf(u)))
    requires Undisturbed(s, steps, u, true)
    ensures var k, t := Sweeps(steps), TrackOf(Run(s, steps), u);
      && (t.node == None <==> 17 <= k)
      && t.resent == TrackOf(s, u).resent
                     + (if 3 <= k then 1 else 0) + (if 8 <= k then 1 else 0) + (if 17 <= k then 1 else 0)
      && t.timedOut == TrackOf(s, u).timedOut + (if 17 <= k then 1 else 0)
  {
    var n := NewNode(u, true, IdOf(u), TokenOf(u));
    Schedule(s, steps, u, n);
    RunKeepsInv(s, steps);
    var t := Run(s, steps);
    if TrackOf(t, u).node.Some? {
      ListedIsOk(t, u);
    }
    hide TrackOf, Inv, Run, Sweeps, TokenOf, IdOf, Undisturbed;
  }

  /** A non-confirmable request is never resent and leaves on its 11th sweep unless answered. */
  lemma {:induction false} NonConfirmableRun(s: State, steps: seq<Step>, u: nat)
    requires Inv(s) && TrackOf(s, u).node == Some(NewNode(u, false, IdOf(u), TokenOf(u)))
    requires Undisturbed(s, steps, u, false)
    ensures var k, t := Sweeps(steps), TrackOf(Run(s, steps), u);
      && (t.node == None <==> 11 <= k)
      && t.resent == TrackOf(s, u).resent
      && t.timedOut == TrackOf(s, u).timedOut + (if 11 <= k then 1 else 0)
  {
    Schedule(s, steps, u, NewNode(u, false, IdOf(u), TokenOf(u)));
    hide TrackOf, Inv, Run, Sweeps, TokenOf, IdOf, Undisturbed;
  }

  lemma {:induction false} SweepsAlone(s: State, k: nat, u: nat, con: bool)
    ensures var steps := seq(k, _ => Sweep); Undisturbed(s, steps, u, con) && Sweeps(steps) == k
    decreases k
  {
    var steps := seq(k, _ => Sweep);
    if k > 0 {
      assert steps[0] == Sweep && steps[1..] == seq(k - 1, _ => Sweep);
      hide DoSweep, Acks, Answers;
      assert !Answers(s, Sweep, u) && !Acks(s, Sweep, u) by { SweepIsQuiet(s, u); }
      SweepsAlone(DoStep(s, Sweep), k - 1, u, con);
    }
  }

  lemma SweepIsQuiet(s: State, u: nat)
    ensures !Answers(s, Sweep, u) && !Acks(s, Sweep, u)
  {
  }

  /** The first request after start-up, in a network that never answers. */
  lemma {:induction false} FirstRequestAlone(k: nat)
    ensures var s := DoRequest(INITIAL, Call(true, Written));
      var t := TrackOf(Run(s, seq(k, _ => Sweep)), 0);
      && (t.node == None <==> 17 <= k)
      && t.resent == (if 3 <= k then 1 else 0) + (if 8 <= k then 1 else 0) + (if 17 <= k then 1 else 0)
      && t.timedOut == (if 17 <= k then 1 else 0)
  {
    var s := DoRequest(INITIAL, Call(true, Written));
    RequestKeepsInv(INITIAL, Call(true, Written));
    RequestTrack(INITIAL, Call(true, Written), 0);
    assert TrackOf(INITIAL, 0) == UNKNOWN;
    SweepsAlone(s, k, 0, true);
    hide DoRequest, Inv, TrackOf, Run, Sweeps, Undisturbed, IdOf, TokenOf, NewNode;
    ConfirmableRun(s, seq(k, _ => Sweep), 0);
  }

  /** The list takes any number of requests, and its 8-bit count says so only below 256. */
  lemma {:induction false} ListNeverFull(n: nat, con: bool)
    ensures var s := DoRequests(INITIAL, seq(n, _ => Call(con, Written)));
      && |s.nodes| == n && s.count == Low8(n)
      && (s.count == n <==> n < 256)
  {
    AllListed(INITIAL, n, con);
    RequestsKeepInv(INITIAL, seq(n, _ => Call(con, Written)));
    hide DoRequests;
  }

  lemma {:induction false} AllListed(s: State, n: nat, con: bool)
    ensures |DoRequests(s, seq(n, _ => Call(con, Written))).nodes| == |s.nodes| + n
    decreases n
  {
    var calls := seq(n, _ => Call(con, Written));
    if n > 0 {
      assert calls[0] == Call(con, Written) && calls[1..] == seq(n - 1, _ => Call(con, Written));
      AllListed(DoRequest(s, calls[0]), n - 1, con);
    }
  }
}
