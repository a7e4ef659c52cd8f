/** What single calls of the send list do, in terms of the request or the response itself: the first ids and
    tokens, the node of a new request, and the acknowledgements of confirmable responses over any run. */
module SendSteps {
  import opened Machine
  import opened SendState
  import opened SendRuns

  // ---------------------------------------------------------------- requests

  /** Ids count from 1 to 65534 and are 1 from then on. Tokens are the bytes of a 32-bit counter that starts
      at 0x01020304, the lowest first. */
  lemma {:induction false} IdsAndTokens(serial: nat)
    ensures IdOf(serial) == if serial < 65534 then serial + 1 else 1
    ensures |TokenOf(serial)| == 4
    ensures var t: seq<int> := TokenOf(serial);
      t[0] + 0x100 * t[1] + 0x1_0000 * t[2] + 0x100_0000 * t[3] == (0x0102_0304 + serial) % 0x1_0000_0000
    ensures TokenOf(0) == [4, 3, 2, 1] && TokenOf(0xFEFD_FCFC) == [0, 0, 0, 0]
  {
    TokenInverse(Low32(INIT_TOKEN + serial));
  }

  /** A request that is rejected changes nothing. Any other uses up an id and a token; it is recorded as sent
      once it is handed to the network, and listed if that takes it: to be resent at most 4 times and first
      after 2 sweeps if it is confirmable, and else to be kept for 10 sweeps. */
  lemma {:induction false} RequestExactly(s: State, con: bool, net: Net)
    requires Inv(s)
    ensures var t, g := DoRequest(s, Call(con, net)), s.generated;
      && t.generated == (if net == Rejected then g else g + 1)
      && t.log == s.log + (if net == Written then [Sent(g), Added(g)] else if net == WriteFailed then [Sent(g)] else [])
      && t.nodes == s.nodes + (if net != Written then [] else
           [Node(g, con, IdOf(g), TokenOf(g), false, if con then 0 else 4, if con then 2 else 10, 2)])
      && (net == Rejected ==> t == s)
  {
    CountersAdvance(s);
    hide IdOf, TokenOf, TokenBytes, Low8, Low32, NextId, AfterId, NodesOk;
    assert s.log + [] == s.log && s.nodes + [] == s.nodes;
  }

  /** Requests are sent one after the other. */
  lemma {:induction false} RequestsInOrder(s: State, calls: seq<Call>, more: seq<Call>)
    ensures DoRequests(s, calls + more) == DoRequests(DoRequests(s, calls), more)
    ensures forall call :: DoRequests(s, [call]) == DoRequest(s, call)
    decreases |calls|
  {
    hide DoRequest;
    if calls == [] {
      assert calls + more == more;
    } else {
      assert (calls + more)[1..] == calls[1..] + more;
      RequestsInOrder(DoRequest(s, calls[0]), calls[1..], more);
    }
    forall call ensures DoRequests(s, [call]) == DoRequest(s, call) {
      assert [call][1..] == [];
    }
  }

  function Generated(calls: seq<Call>): nat {
    if calls == [] then 0 else (if calls[0].net == Rejected then 0 else 1) + Generated(calls[1..])
  }

  function Listed(calls: seq<Call>): nat {
    if calls == [] then 0 else (if calls[0].net == Written then 1 else 0) + Listed(calls[1..])
  }

  lemma {:induction false} RequestsCount(s: State, calls: seq<Call>)
    ensures DoRequests(s, calls).generated == s.generated + Generated(calls)
    ensures |DoRequests(s, calls).nodes| == |s.nodes| + Listed(calls)
    ensures s.log <= DoRequests(s, calls).log
    decreases |calls|
  {
    if calls != [] {
      hide TokenBytes, Low8, Low32, NextId, AfterId, NewNode;
      RequestsCount(DoRequest(s, calls[0]), calls[1..]);
    }
  }

  // ---------------------------------------------------------------- responses

  /** A response that no listed request waits for runs no handler: it is acknowledged if it is confirmable,
      and changes nothing else. */
  lemma {:induction false} UnmatchedResponse(s: State, con: bool, msgid: u16, token: seq<u8>, calls: seq<Call>)
    requires forall k :: 0 <= k < |s.nodes| ==> s.nodes[k].token != token || token == []
    ensures DoResponse(s, con, msgid, token, calls) == s.(log := s.log + (if con then [AckSent(msgid)] else []))
  {
    assert s.log + [] == s.log;
    assert FirstByToken(s.nodes, token) == |s.nodes|;
  }

  /** A response to the listed request `k` is acknowledged first, if it is confirmable; then its handler runs
      and sends what it wants to, and in the end just this node is gone and the new ones stand behind the
      others. */
  lemma {:induction false} MatchedResponse(s: State, con: bool, msgid: u16, token: seq<u8>, calls: seq<Call>, k: nat)
    requires k < |s.nodes| && s.nodes[k].token == token != []
    requires forall j :: 0 <= j < k ==> s.nodes[j].token != token
    ensures var t := DoResponse(s, con, msgid, token, calls);
      && s.log + (if con then [AckSent(msgid)] else []) + [Answered(s.nodes[k].serial, token)] <= t.log
      && t.generated == s.generated + Generated(calls)
      && |t.nodes| == |s.nodes| - 1 + Listed(calls)
      && s.nodes[..k] + s.nodes[k + 1..] <= t.nodes
  {
    hide DoRequests, Low8;
    var i := FirstByToken(s.nodes, token);
    assert i == k;
    var t := if con then s.(log := s.log + [AckSent(msgid)]) else s;
    assert s.log + [] == s.log;
    var called := t.(log := t.log + [Answered(s.nodes[k].serial, token)]);
    DoRequestsKeepsNodes(called, calls);
    RequestsCount(called, calls);
    RemoveFromPrefix(s.nodes, DoRequests(called, calls).nodes, k);
  }

  lemma RemoveFromPrefix<T>(a: seq<T>, b: seq<T>, k: nat)
    requires a <= b && k < |a|
    ensures a[..k] + a[k + 1..] <= b[..k] + b[k + 1..]
  {
  }

  // ---------------------------------------------------------------- acknowledgements of responses

  function AcksOf(step: Step, m: u16): nat {
    if step.Response? && step.con && step.msgid == m then 1 else 0
  }

  /** The confirmable responses with this id among `steps`. */
  function ConfirmableResponses(steps: seq<Step>, m: u16): nat {
    if steps == [] then 0 else AcksOf(steps[0], m) + ConfirmableResponses(steps[1..], m)
  }

  lemma {:induction false} CountSnoc(log: seq<Event>, e: Event, m: u16)
    ensures Count(log + [e], AckSent(m)) == Count(log, AckSent(m)) + if e == AckSent(m) then 1 else 0
  {
    CountAppend(log, [e], AckSent(m));
  }

  lemma {:induction false} RequestsNeverAck(s: State, calls: seq<Call>, m: u16)
    ensures Count(DoRequests(s, calls).log, AckSent(m)) == Count(s.log, AckSent(m))
    decreases |calls|
  {
    if calls != [] {
      hide Count, TokenBytes, Low8, Low32, NextId, AfterId, NewNode;
      var g := s.generated;
      CountSnoc(s.log, Sent(g), m);
      CountSnoc(s.log + [Sent(g)], Added(g), m);
      assert s.log + [Sent(g), Added(g)] == s.log + [Sent(g)] + [Added(g)];
      RequestsNeverAck(DoRequest(s, calls[0]), calls[1..], m);
    }
  }

  lemma {:induction false} SweepNeverAcks(nodes: seq<Node>, m: u16)
    ensures forall k :: 0 <= k < |SweepEvents(nodes)| ==> !SweepEvents(nodes)[k].AckSent?
    ensures Count(SweepEvents(nodes), AckSent(m)) == 0
  {
    if nodes != [] {
      hide TickNode;
      SweepNeverAcks(nodes[1..], m);
    }
  }

  /** A response is acknowledged if and only if it is confirmable, once, whether or not a request waits for it
      and whatever its handler does. */
  lemma {:induction false} ResponseAcks(s: State, con: bool, msgid: u16, token: seq<u8>, calls: seq<Call>, m: u16)
    ensures Count(DoResponse(s, con, msgid, token, calls).log, AckSent(m))
         == Count(s.log, AckSent(m)) + if con && m == msgid then 1 else 0
  {
    hide Count, DoRequests, Low8;
    var i := FirstByToken(s.nodes, token);
    CountSnoc(s.log, AckSent(msgid), m);
    var t := if con then s.(log := s.log + [AckSent(msgid)]) else s;
    if i < |s.nodes| {
      var e := Answered(s.nodes[i].serial, token);
      CountSnoc(t.log, e, m);
      RequestsNeverAck(t.(log := t.log + [e]), calls, m);
    }
  }

  lemma {:induction false} StepAcks(s: State, step: Step, m: u16)
    ensures Count(DoStep(s, step).log, AckSent(m)) == Count(s.log, AckSent(m)) + AcksOf(step, m)
  {
    hide Count, DoRequest, DoResponse;
    match step
    case Request(call) =>
      RequestsInOrder(s, [call], []);
      RequestsNeverAck(s, [call], m);
    case Ack(msgid) =>
    case Response(con, msgid, token, calls) => ResponseAcks(s, con, msgid, token, calls, m);
    case Sweep =>
      CountAppend(s.log, SweepEvents(s.nodes), AckSent(m));
      SweepNeverAcks(s.nodes, m);
  }

  /** Over any run there are exactly as many acknowledgements with an id as confirmable responses with it. */
  lemma {:induction false} RunAcks(s: State, steps: seq<Step>, m: u16)
    ensures Count(Run(s, steps).log, AckSent(m)) == Count(s.log, AckSent(m)) + ConfirmableResponses(steps, m)
    decreases |steps|
  {
    if steps != [] {
      StepAcks(s, steps[0], m);
      hide Count, DoStep, AcksOf;
      RunAcks(DoStep(s, steps[0]), steps[1..], m);
    }
  }
}
