/** The CoAP send list as a state machine: what one request, acknowledgement, response or sweep does
    (CoAPMessage.c), and what that means for a single request over any run of steps. */
module SendState {
  import opened Machine

  const MAX_RETRY_COUNT := 4
  const MAX_TRANSMISSION_SPAN := 10
  const ACK_TIMEOUT := 2
  const MAX_MESSAGE_ID := 65535
  const INIT_TOKEN := 0x0102_0304

  /** A node of the list. `serial` says which generated request it is, as its address does in C. */
  datatype Node = Node(serial: nat, con: bool, msgid: u16, token: seq<u8>, acked: bool,
                       retrans: u8, timeout: u16, timeoutVal: u16)

  /** Answered: the node's handler has been run with a response that carries `token`. */
  datatype Event =
    | Sent(serial: nat)
    | Added(serial: nat)
    | Resent(serial: nat)
    | Answered(serial: nat, token: seq<u8>)
    | TimedOut(serial: nat)
    | AckSent(msgid: u16)

  /** `count` is the C counter; `generated` and `log` record the past. */
  datatype State = State(nodes: seq<Node>, count: u8, messageId: u16, coapToken: u32,
                         generated: nat, log: seq<Event>)

  const INITIAL := State([], 0, 1, INIT_TOKEN, 0, [])

  // ---------------------------------------------------------------- identifiers

  function NextId(messageId: u16): u16 { if messageId == MAX_MESSAGE_ID then 1 else messageId }

  function AfterId(messageId: u16): u16 { if messageId == MAX_MESSAGE_ID then messageId else messageId + 1 }

  /** iotx_get_coap_token: least significant byte first. */
  function TokenBytes(value: u32): seq<u8> {
    var hi, lo := value / 0x1_0000, value % 0x1_0000;
    [lo % 256, lo / 256, hi % 256, hi / 256]
  }

  /** IOT_CoAP_GetMessageToken */
  function TokenValue(token: seq<u8>): u32
    requires |token| >= 4
  {
    0x1_0000 * Word(token[3], token[2]) + Word(token[1], token[0])
  }

  /** The message id and the token of request number `serial` of a context. */
  function IdOf(serial: nat): u16 { if serial < 65534 then serial + 1 else 1 }

  function TokenOf(serial: nat): seq<u8> { TokenBytes(Low32(INIT_TOKEN + serial)) }

  lemma {:induction false} TokenInverse(value: u32)
    ensures TokenValue(TokenBytes(value)) == value
  {
    var hi, lo := value / 0x1_0000, value % 0x1_0000;
    var t := TokenBytes(value);
    assert Word(t[3], t[2]) == hi && Word(t[1], t[0]) == lo;
  }

  /** Two requests share a token exactly when a multiple of 2^32 requests lies between them. */
  lemma {:induction false} TokensDifferIff(i: nat, j: nat)
    requires i <= j
    ensures TokenOf(i) == TokenOf(j) <==> (j - i) % 0x1_0000_0000 == 0
  {
    TokenInverse(Low32(INIT_TOKEN + i));
    TokenInverse(Low32(INIT_TOKEN + j));
    Low32Same(INIT_TOKEN + i, INIT_TOKEN + j);
  }

  lemma Low32Same(a: nat, b: nat)
    requires a <= b
    ensures Low32(a) == Low32(b) <==> (b - a) % 0x1_0000_0000 == 0
  {
  }

  /** The generator hands out ids 1..65534 once each and then 1 forever: no id is zero, and the first n
      are pairwise distinct exactly when n is at most 65534. */
  lemma {:induction false} IdsDistinctIff(n: nat)
    ensures forall i: nat :: IdOf(i) != 0
    ensures (forall i, j :: 0 <= i < j < n ==> IdOf(i) != IdOf(j)) <==> n <= 65534
  {
    if n > 65534 {
      assert IdOf(0) == IdOf(65534);
    }
  }

  // ---------------------------------------------------------------- steps

  /** How a send ends: rejected before it generates an id, for its arguments or without authentication;
      with an id, but too long to be sent; or handed to the network, with or without success. */
  datatype Net = Rejected | TooLong | WriteFailed | Written

  /** One call of IOT_CoAP_SendMessage, or of another sender built like it. */
  datatype Call = Call(con: bool, net: Net)

  datatype Step =
    | Request(call: Call)
    | Ack(msgid: u16)
    | Response(con: bool, msgid: u16, token: seq<u8>, calls: seq<Call>)  // `calls`: what the handler sends
    | Sweep

  function NewNode(serial: nat, con: bool, msgid: u16, token: seq<u8>): Node {
    Node(serial, con, msgid, token, false, if con then 0 else MAX_RETRY_COUNT,
         if con then ACK_TIMEOUT else MAX_TRANSMISSION_SPAN, ACK_TIMEOUT)
  }

  function DoRequest(s: State, call: Call): State {
    var node := NewNode(s.generated, call.con, NextId(s.messageId), TokenBytes(s.coapToken));
    var t := s.(messageId := AfterId(s.messageId), coapToken := Low32(s.coapToken + 1), generated := s.generated + 1);
    match call.net
    case Rejected => s
    case TooLong => t
    case WriteFailed => t.(log := t.log + [Sent(node.serial)])
    case Written => t.(log := t.log + [Sent(node.serial), Added(node.serial)],
                       nodes := t.nodes + [node], count := Low8(t.count + 1))
  }

  function DoRequests(s: State, calls: seq<Call>): State
    decreases |calls|
  {
    if calls == [] then s else DoRequests(DoRequest(s, calls[0]), calls[1..])
  }

  /** The first node with this message id; `|nodes|` if there is none. */
  function FirstById(nodes: seq<Node>, msgid: u16): (i: nat)
    ensures i <= |nodes|
    ensures i < |nodes| ==> nodes[i].msgid == msgid
    ensures forall j :: 0 <= j < i ==> nodes[j].msgid != msgid
  {
    if nodes == [] || nodes[0].msgid == msgid then 0 else 1 + FirstById(nodes[1..], msgid)
  }

  function FirstByToken(nodes: seq<Node>, token: seq<u8>): (i: nat)
    ensures i <= |nodes|
    ensures i < |nodes| ==> nodes[i].token == token != []
    ensures forall j :: 0 <= j < i ==> nodes[j].token != token || token == []
  {
    if nodes == [] || (nodes[0].token != [] && nodes[0].token == token) then 0
    else 1 + FirstByToken(nodes[1..], token)
  }

  function DoAck(s: State, msgid: u16): State {
    var i := FirstById(s.nodes, msgid);
    if i == |s.nodes| then s else s.(nodes := s.nodes[i := s.nodes[i].(acked := true)])
  }

  /** A confirmable response is acknowledged first; the handler runs before its node is unlinked. */
  function DoResponse(s: State, con: bool, msgid: u16, token: seq<u8>, calls: seq<Call>): State {
    var t := if con then s.(log := s.log + [AckSent(msgid)]) else s;
    var i := FirstByToken(s.nodes, token);
    if i == |s.nodes| then t else
    var u := DoRequests(t.(log := t.log + [Answered(s.nodes[i].serial, token)]), calls);
    DoRequestsKeepsNodes(t.(log := t.log + [Answered(s.nodes[i].serial, token)]), calls);
    u.(nodes := u.nodes[..i] + u.nodes[i + 1..], count := Low8(u.count - 1))
  }

  lemma {:induction false} DoRequestsKeepsNodes(s: State, calls: seq<Call>)
    ensures s.nodes <= DoRequests(s, calls).nodes
    ensures s.generated <= DoRequests(s, calls).generated
    decreases |calls|
  {
    if calls != [] {
      DoRequestsKeepsNodes(DoRequest(s, calls[0]), calls[1..]);
    }
  }

  datatype Tick = Tick(node: Node, resent: bool, dropped: bool)

  /** What one sweep does to one node. */
  function TickNode(n: Node): Tick {
    if n.timeout == 0 then
      var resent := n.retrans < MAX_RETRY_COUNT && !n.acked;
      var doubled := Low16(2 * n.timeoutVal);
      var m := if resent then n.(timeout := doubled, timeoutVal := doubled, retrans := n.retrans + 1) else n;
      Tick(m, resent, m.timeout > MAX_TRANSMISSION_SPAN || m.retrans >= MAX_RETRY_COUNT)
    else
      Tick(n.(timeout := n.timeout - 1), false, false)
  }

  function TickEvents(n: Node): seq<Event> {
    (if TickNode(n).resent then [Resent(n.serial)] else []) + (if TickNode(n).dropped then [TimedOut(n.serial)] else [])
  }

  function SweepNodes(nodes: seq<Node>): seq<Node> {
    if nodes == [] then [] else
    (if TickNode(nodes[0]).dropped then [] else [TickNode(nodes[0]).node]) + SweepNodes(nodes[1..])
  }

  function SweepEvents(nodes: seq<Node>): seq<Event> {
    if nodes == [] then [] else TickEvents(nodes[0]) + SweepEvents(nodes[1..])
  }

  function DoSweep(s: State): State {
    s.(nodes := SweepNodes(s.nodes), count := Low8(s.count - (|s.nodes| - |SweepNodes(s.nodes)|)),
       log := s.log + SweepEvents(s.nodes))
  }

  function DoStep(s: State, step: Step): State {
    match step
    case Request(call) => DoRequest(s, call)
    case Ack(msgid) => DoAck(s, msgid)
    case Response(con, msgid, token, calls) => DoResponse(s, con, msgid, token, calls)
    case Sweep => DoSweep(s)
  }

  function Run(s: State, steps: seq<Step>): State
    decreases |steps|
  {
    if steps == [] then s else Run(DoStep(s, steps[0]), steps[1..])
  }

  // ---------------------------------------------------------------- the invariant

  /** The back-off a listed node has reached: a CON node doubles, a NON node only counts down. */
  predicate TimersOk(n: Node) {
    if n.con then
      && n.retrans <= 2
      && n.timeoutVal == (if n.retrans == 0 then 2 else if n.retrans == 1 then 4 else 8)
      && n.timeout <= n.timeoutVal
    else
      n.retrans == MAX_RETRY_COUNT && n.timeout <= MAX_TRANSMISSION_SPAN
  }

  predicate NodeOk(n: Node, generated: nat) {
    n.serial < generated && n.msgid == IdOf(n.serial) && n.token == TokenOf(n.serial) && TimersOk(n)
  }

  predicate NodesOk(nodes: seq<Node>, generated: nat) {
    && (forall i :: 0 <= i < |nodes| ==> NodeOk(nodes[i], generated))
    && (forall i, j :: 0 <= i < j < |nodes| ==> nodes[i].serial < nodes[j].serial)
  }

  predicate CountersOk(s: State) {
    && s.count == Low8(|s.nodes|)
    && s.messageId == (if s.generated < 65534 then s.generated + 1 else MAX_MESSAGE_ID)
    && s.coapToken == Low32(INIT_TOKEN + s.generated)
  }

  predicate Inv(s: State) {
    NodesOk(s.nodes, s.generated) && CountersOk(s)
  }

  lemma TickKeepsTimers(n: Node)
    requires TimersOk(n) && !TickNode(n).dropped
    ensures TimersOk(TickNode(n).node)
    ensures TickNode(n).node.(timeout := 0, timeoutVal := 0, retrans := 0)
         == n.(timeout := 0, timeoutVal := 0, retrans := 0)
  {
  }

  predicate StartsAt(nodes: seq<Node>, serial: nat) {
    forall k :: 0 <= k < |nodes| ==> serial <= nodes[k].serial
  }

  lemma TailKeepsNodes(nodes: seq<Node>, generated: nat)
    requires NodesOk(nodes, generated) && nodes != []
    ensures NodesOk(nodes[1..], generated) && NodeOk(nodes[0], generated)
    ensures nodes[1..] != [] ==> nodes[0].serial < nodes[1..][0].serial
  {
  }

  lemma StartsBelow(nodes: seq<Node>, serial: nat, lower: nat)
    requires nodes == [] || (StartsAt(nodes, serial) && lower <= serial)
    ensures StartsAt(nodes, lower)
  {
  }

  lemma {:induction false} TickKeepsNode(n: Node, generated: nat)
    requires NodeOk(n, generated) && !TickNode(n).dropped
    ensures NodeOk(TickNode(n).node, generated) && TickNode(n).node.serial == n.serial
  {
    TickKeepsTimers(n);
    hide TickNode, TimersOk, IdOf, TokenOf;
    var m := TickNode(n).node;
    assert m.(timeout := 0, timeoutVal := 0, retrans := 0).serial == m.serial == n.serial;
    assert m.(timeout := 0, timeoutVal := 0, retrans := 0).msgid == m.msgid == n.msgid;
    assert m.(timeout := 0, timeoutVal := 0, retrans := 0).token == m.token == n.token;
  }

  lemma PrependKeepsNodes(n: Node, rest: seq<Node>, generated: nat)
    requires NodeOk(n, generated) && NodesOk(rest, generated)
    requires StartsAt(rest, n.serial + 1)
    ensures NodesOk([n] + rest, generated) && StartsAt([n] + rest, n.serial)
  {
    hide NodeOk;
  }

  lemma {:induction false} SweepKeepsNodes(nodes: seq<Node>, generated: nat)
    requires NodesOk(nodes, generated)
    ensures NodesOk(SweepNodes(nodes), generated) && |SweepNodes(nodes)| <= |nodes|
    ensures nodes != [] ==> StartsAt(SweepNodes(nodes), nodes[0].serial)
  {
    if nodes != [] {
      hide TickNode, NodeOk, NodesOk, StartsAt;
      var head, rest := nodes[0], nodes[1..];
      var kept := SweepNodes(rest);
      TailKeepsNodes(nodes, generated);
      SweepKeepsNodes(rest, generated);
      StartsBelow(kept, if rest == [] then 0 else rest[0].serial, head.serial + 1);
      if TickNode(head).dropped {
        assert SweepNodes(nodes) == [] + kept == kept;
        StartsBelow(kept, head.serial + 1, head.serial);
      } else {
        TickKeepsNode(head, generated);
        PrependKeepsNodes(TickNode(head).node, kept, generated);
      }
    }
  }

  lemma {:induction false} AppendKeepsNodes(nodes: seq<Node>, generated: nat, node: Node)
    requires NodesOk(nodes, generated) && node.serial == generated && NodeOk(node, generated + 1)
    ensures NodesOk(nodes, generated + 1) && NodesOk(nodes + [node], generated + 1)
  {
    hide IdOf, TokenOf, TimersOk;
  }

  lemma Low8Step(n: int, k: int)
    ensures Low8(Low8(n) + k) == Low8(n + k)
  {
  }

  lemma {:induction false} CountersAdvance(s: State)
    requires CountersOk(s)
    ensures NextId(s.messageId) == IdOf(s.generated) && TokenBytes(s.coapToken) == TokenOf(s.generated)
    ensures AfterId(s.messageId) == (if s.generated + 1 < 65534 then s.generated + 2 else MAX_MESSAGE_ID)
    ensures Low32(s.coapToken + 1) == Low32(INIT_TOKEN + (s.generated + 1))
  {
    hide TokenBytes;
  }

  lemma {:induction false} RequestKeepsInv(s: State, call: Call)
    requires Inv(s)
    ensures Inv(DoRequest(s, call))
  {
    CountersAdvance(s);
    Low8Step(|s.nodes|, 1);
    hide Low32, Low8, TokenBytes, IdOf, TokenOf, NextId, AfterId, NodesOk;
    AppendKeepsNodes(s.nodes, s.generated,
                     NewNode(s.generated, call.con, NextId(s.messageId), TokenBytes(s.coapToken)));
  }

  lemma {:induction false} RequestsKeepInv(s: State, calls: seq<Call>)
    requires Inv(s)
    ensures Inv(DoRequests(s, calls))
    decreases |calls|
  {
    if calls != [] {
      RequestKeepsInv(s, calls[0]);
      RequestsKeepInv(DoRequest(s, calls[0]), calls[1..]);
    }
  }

  lemma {:induction false} RemoveKeepsInv(s: State, i: nat)
    requires Inv(s) && i < |s.nodes|
    ensures Inv(s.(nodes := s.nodes[..i] + s.nodes[i + 1..], count := Low8(s.count - 1)))
  {
    assert Low8(Low8(|s.nodes|) - 1) == Low8(|s.nodes| - 1);
    hide Low8, Low32, NodeOk;
  }

  lemma {:induction false} AckKeepsInv(s: State, msgid: u16)
    requires Inv(s)
    ensures Inv(DoAck(s, msgid))
  {
    hide IdOf, TokenOf, Low8, Low32;
  }

  lemma {:induction false} ResponseKeepsInv(s: State, con: bool, msgid: u16, token: seq<u8>, calls: seq<Call>)
    requires Inv(s)
    ensures Inv(DoResponse(s, con, msgid, token, calls))
  {
    hide NodesOk, CountersOk;
    var i := FirstByToken(s.nodes, token);
    var t := if con then s.(log := s.log + [AckSent(msgid)]) else s;
    InvIgnoresLog(s, t.log);
    if i < |s.nodes| {
      var v := t.(log := t.log + [Answered(s.nodes[i].serial, token)]);
      InvIgnoresLog(s, v.log);
      RequestsKeepInv(v, calls);
      DoRequestsKeepsNodes(v, calls);
      RemoveKeepsInv(DoRequests(v, calls), i);
    }
  }

  lemma {:induction false} InvIgnoresLog(s: State, log: seq<Event>)
    requires Inv(s)
    ensures Inv(s.(log := log))
  {
    hide NodesOk;
  }

  lemma {:induction false} SweepKeepsInv(s: State)
    requires Inv(s)
    ensures Inv(DoSweep(s))
  {
    SweepKeepsNodes(s.nodes, s.generated);
    hide NodesOk, SweepNodes, Low32;
    Low8Step(|s.nodes|, |SweepNodes(s.nodes)| - |s.nodes|);
  }

  lemma {:induction false} StepKeepsInv(s: State, step: Step)
    requires Inv(s)
    ensures Inv(DoStep(s, step))
  {
    hide Inv, DoRequest, DoAck, DoResponse, DoSweep;
    match step
    case Request(call) => RequestKeepsInv(s, call);
    case Ack(msgid) => AckKeepsInv(s, msgid);
    case Response(con, msgid, token, calls) => ResponseKeepsInv(s, con, msgid, token, calls);
    case Sweep => SweepKeepsInv(s);
  }

  /** In every reachable state: back-off values, ids, tokens and the wrapping counters are as stated. */
  lemma {:induction false} RunKeepsInv(s: State, steps: seq<Step>)
    requires Inv(s)
    ensures Inv(Run(s, steps))
    decreases |steps|
  {
    if steps != [] {
      StepKeepsInv(s, steps[0]);
      RunKeepsInv(DoStep(s, steps[0]), steps[1..]);
    }
  }
}
