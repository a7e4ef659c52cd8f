/** CoAPMessage.c and the counters of iotx_coap_api.c as they run: the list and the counters are
    updated in place, and every operation is proved to do what SendState says. */
module SendList {
  import opened Machine
  import opened SendState

  class Context {
    var nodes: seq<Node>
    var count: u8
    var messageId: u16
    var coapToken: u32
    var generated: nat
    ghost var log: seq<Event>

    ghost function View(): State
      reads this
    {
      State(nodes, count, messageId, coapToken, generated, log)
    }

    constructor ()
      ensures View() == INITIAL && Inv(View())
    {
      nodes, count, messageId, coapToken, generated, log := [], 0, 1, INIT_TOKEN, 0, [];
    }

    /** Cloud_CoAPMessageId_gen */
    method MessageIdGen() returns (id: u16)
      modifies this`messageId
      ensures id == NextId(old(messageId)) && messageId == AfterId(old(messageId))
    {
      if MAX_MESSAGE_ID == messageId {
        id := 1;
      } else {
        id := messageId;
        messageId := messageId + 1;
      }
    }

    /** iotx_get_coap_token */
    method GetToken() returns (token: seq<u8>)
      modifies this`coapToken
      ensures token == TokenBytes(old(coapToken)) && coapToken == Low32(old(coapToken) + 1)
    {
      var lo, hi := coapToken % 0x1_0000, coapToken / 0x1_0000;
      token := [lo % 256, lo / 256, hi % 256, hi / 256];
      coapToken := Low32(coapToken + 1);
    }

    /** Cloud_CoAPMessageList_add; its capacity test compares addresses and never rejects. */
    method ListAdd(serial: nat, con: bool, msgid: u16, token: seq<u8>)
      modifies this`nodes, this`count, this`log
      ensures nodes == old(nodes) + [NewNode(serial, con, msgid, token)]
      ensures count == Low8(old(count) + 1) && log == old(log) + [Added(serial)]
    {
      var timeout, retrans := MAX_TRANSMISSION_SPAN, MAX_RETRY_COUNT;
      if con {
        timeout, retrans := ACK_TIMEOUT, 0;
      }
      nodes := nodes + [Node(serial, con, msgid, token, false, retrans, timeout, ACK_TIMEOUT)];
      count := Low8(count + 1);
      log := log + [Added(serial)];
    }

    /** IOT_CoAP_SendMessage down to Cloud_CoAPMessage_send, for a request code. */
    method SendRequest(call: Call)
      modifies this
      ensures View() == DoRequest(old(View()), call)
    {
      if call.net == Rejected {
        return;
      }
      var serial := generated;
      generated := generated + 1;
      var id := MessageIdGen();
      var token := GetToken();
      if call.net == TooLong {
        return;
      }
      log := log + [Sent(serial)];
      if call.net == Written {
        ListAdd(serial, call.con, id, token);
        assert log == old(log) + [Sent(serial), Added(serial)];
      }
    }

    /** Cloud_CoAPAckMessage_handle */
    method HandleAck(msgid: u16)
      modifies this`nodes
      ensures View() == DoAck(old(View()), msgid)
    {
      var i := 0;
      while i < |nodes|
        invariant 0 <= i <= |nodes| && nodes == old(nodes)
        invariant FirstById(nodes, msgid) == i + FirstById(nodes[i..], msgid)
      {
        if nodes[i].msgid == msgid {
          nodes := nodes[i := nodes[i].(acked := true)];
          return;
        }
        assert nodes[i..][1..] == nodes[i + 1..];
        i := i + 1;
      }
    }

    /** What a response handler does to the list: it may send requests. */
    method RunHandler(calls: seq<Call>)
      modifies this
      ensures View() == DoRequests(old(View()), calls)
    {
      var i := 0;
      while i < |calls|
        invariant 0 <= i <= |calls|
        invariant DoRequests(View(), calls[i..]) == DoRequests(old(View()), calls)
      {
        assert calls[i..][1..] == calls[i + 1..];
        SendRequest(calls[i]);
        i := i + 1;
      }
    }

    /** The handler runs while its node is still listed; then the node is unlinked. */
    method AnswerNode(i: nat, token: seq<u8>, calls: seq<Call>)
      requires i < |nodes|
      modifies this
      ensures var called := old(View()).(log := old(log) + [Answered(old(nodes)[i].serial, token)]);
        var ran := DoRequests(called, calls);
        && i < |ran.nodes|
        && View() == ran.(nodes := ran.nodes[..i] + ran.nodes[i + 1..], count := Low8(ran.count - 1))
    {
      log := log + [Answered(nodes[i].serial, token)];
      DoRequestsKeepsNodes(View(), calls);
      hide DoRequests, Low8;
      RunHandler(calls);
      nodes := nodes[..i] + nodes[i + 1..];
      count := Low8(count - 1);
    }

    /** Cloud_CoAPRespMessage_handle */
    method HandleResponse(con: bool, msgid: u16, token: seq<u8>, calls: seq<Call>) returns (found: bool)
      modifies this
      ensures View() == DoResponse(old(View()), con, msgid, token, calls)
      ensures found <==> FirstByToken(old(nodes), token) < |old(nodes)|
    {
      hide DoRequests, Low8, FirstByToken;
      if con {
        log := log + [AckSent(msgid)];
      }
      var i := 0;
      assert nodes[0..] == nodes;
      while i < |nodes|
        invariant 0 <= i <= |nodes|
        invariant nodes == old(nodes) && View() == RespondedTo(old(View()), con, msgid)
        invariant FirstByToken(nodes, token) == i + FirstByToken(nodes[i..], token)
      {
        if nodes[i].token != [] && nodes[i].token == token {
          FirstByTokenStep(nodes, token, i);
          AnswerNode(i, token, calls);
          return true;
        }
        FirstByTokenStep(nodes, token, i);
        i := i + 1;
      }
      FirstByTokenEnd(nodes, token);
      found := false;
    }

    /** The retransmission half of one node's turn in a sweep. */
    method Turn(i: nat) returns (dropped: bool)
      requires i < |nodes|
      modifies this`nodes, this`log
      ensures nodes == old(nodes)[i := TickNode(old(nodes)[i]).node] && dropped == TickNode(old(nodes)[i]).dropped
      ensures log == old(log) + TickEvents(old(nodes)[i])
    {
      var node := nodes[i];
      dropped := false;
      if node.timeout == 0 {
        if node.retrans < MAX_RETRY_COUNT && !node.acked {
          node := node.(timeout := Low16(2 * node.timeoutVal));
          node := node.(timeoutVal := node.timeout);
          node := node.(retrans := node.retrans + 1);
          log := log + [Resent(node.serial)];
        }
        if node.timeout > MAX_TRANSMISSION_SPAN || node.retrans >= MAX_RETRY_COUNT {
          dropped := true;
          log := log + [TimedOut(node.serial)];
        }
      } else {
        node := node.(timeout := node.timeout - 1);
      }
      nodes := nodes[i := node];
    }

    /** The sweep of Cloud_CoAPMessage_cycle: nodes are unlinked while the list is walked. */
    method SweepList()
      modifies this`nodes, this`count, this`log
      ensures View() == DoSweep(old(View()))
    {
      ghost var all := nodes;
      hide TickNode, TickEvents, SweepNodes, SweepEvents, SweptSoFar, Low8;
      StartsSweep(View());
      var i := 0;
      while i < |nodes|
        invariant i <= |nodes| && SweptSoFar(old(View()), View(), i)
        decreases |nodes| - i
      {
        ExtendsSweep(old(View()), View(), i);
        var dropped := Turn(i);
        if dropped {
          nodes := nodes[..i] + nodes[i + 1..];
          count := Low8(count - 1);
        } else {
          i := i + 1;
        }
      }
      EndsSweep(old(View()), View());
    }
  }

  /** The state after the acknowledgement of a confirmable response. */
  function RespondedTo(s: State, con: bool, msgid: u16): State {
    if con then s.(log := s.log + [AckSent(msgid)]) else s
  }

  lemma {:induction false} FirstByTokenStep(nodes: seq<Node>, token: seq<u8>, i: nat)
    requires i < |nodes|
    ensures FirstByToken(nodes[i..], token)
         == if nodes[i].token != [] && nodes[i].token == token then 0 else 1 + FirstByToken(nodes[i + 1..], token)
  {
    assert nodes[i..][0] == nodes[i] && nodes[i..][1..] == nodes[i + 1..];
  }

  lemma FirstByTokenEnd(nodes: seq<Node>, token: seq<u8>)
    ensures FirstByToken(nodes[|nodes|..], token) == 0
  {
  }

  /** The first `i` nodes of `now` have had their turn; the rest are still as they were in `s`. */
  ghost predicate SweptSoFar(s: State, now: State, i: nat)
    requires i <= |now.nodes|
  {
    && SweepNodes(s.nodes) == now.nodes[..i] + SweepNodes(now.nodes[i..])
    && s.log + SweepEvents(s.nodes) == now.log + SweepEvents(now.nodes[i..])
    && |now.nodes| <= |s.nodes| && now.count == Low8(s.count - (|s.nodes| - |now.nodes|))
    && now == s.(nodes := now.nodes, log := now.log, count := now.count)
  }

  lemma {:induction false} StartsSweep(s: State)
    ensures SweptSoFar(s, s, 0)
  {
    assert s.nodes[0..] == s.nodes;
  }

  /** The state after the turn of node `i`. */
  function AfterTurn(now: State, i: nat): State
    requires i < |now.nodes|
  {
    var t := TickNode(now.nodes[i]);
    var nodes := now.nodes[i := t.node];
    var ticked := now.(nodes := nodes, log := now.log + TickEvents(now.nodes[i]));
    if t.dropped then ticked.(nodes := nodes[..i] + nodes[i + 1..], count := Low8(now.count - 1)) else ticked
  }

  lemma {:induction false} SplitTurn(nodes: seq<Node>, i: nat)
    requires i < |nodes|
    ensures SweepNodes(nodes[i..])
         == (if TickNode(nodes[i]).dropped then [] else [TickNode(nodes[i]).node]) + SweepNodes(nodes[i + 1..])
    ensures SweepEvents(nodes[i..]) == TickEvents(nodes[i]) + SweepEvents(nodes[i + 1..])
  {
    assert nodes[i..][0] == nodes[i] && nodes[i..][1..] == nodes[i + 1..];
    hide TickNode, TickEvents;
  }

  lemma {:induction false} AfterTurnNodes(now: State, i: nat)
    requires i < |now.nodes|
    ensures var t, next := TickNode(now.nodes[i]), AfterTurn(now, i);
      && |next.nodes| == |now.nodes| - (if t.dropped then 1 else 0)
      && next.nodes[..if t.dropped then i else i + 1] == now.nodes[..i] + (if t.dropped then [] else [t.node])
      && next.nodes[if t.dropped then i else i + 1..] == now.nodes[i + 1..]
  {
    hide TickNode, TickEvents, Low8;
  }

  lemma Regroup<T>(a: seq<T>, b: seq<T>, c: seq<T>)
    ensures a + (b + c) == (a + b) + c
  {
  }

  lemma {:induction false} ExtendsSweep(s: State, now: State, i: nat)
    requires i < |now.nodes| && SweptSoFar(s, now, i)
    ensures |AfterTurn(now, i).nodes| == |now.nodes| - (if TickNode(now.nodes[i]).dropped then 1 else 0)
    ensures SweptSoFar(s, AfterTurn(now, i), if TickNode(now.nodes[i]).dropped then i else i + 1)
  {
    hide TickNode, TickEvents, SweepNodes, SweepEvents, Low8;
    var t, rest := TickNode(now.nodes[i]), now.nodes[i + 1..];
    SplitTurn(now.nodes, i);
    AfterTurnNodes(now, i);
    Regroup(now.nodes[..i], if t.dropped then [] else [t.node], SweepNodes(rest));
    Regroup(now.log, TickEvents(now.nodes[i]), SweepEvents(rest));
    Low8Step(s.count - (|s.nodes| - |now.nodes|), -1);
  }

  lemma {:induction false} EndsSweep(s: State, now: State)
    requires SweptSoFar(s, now, |now.nodes|)
    ensures now == DoSweep(s)
  {
    assert now.nodes[|now.nodes|..] == [];
    assert now.nodes[..|now.nodes|] == now.nodes;
  }
}
