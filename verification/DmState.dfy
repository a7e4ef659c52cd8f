/** The device model's request cache (dm_message_cache.c), its bounded event queue (dm_ipc.c) and the
    dispatch loop (dm_api.c) as a state machine, and what they guarantee over any run. */
module DmState {
  const CACHE_MAXLEN := 50
  const TIMEOUT_MS := 10000

  datatype Entry = Entry(msgid: nat, devid: int, kind: int, ctime: nat)

  /** Events for the user. Reply and Timeout are the outcomes of a cached request. */
  datatype Event =
    | Reply(msgid: int, devid: int)
    | Timeout(msgid: int, devid: int, kind: int)
    | Other(tag: int)

  /** `accepted`, `delivered` and `refused` record the past. */
  datatype Ipc = Ipc(queue: seq<Event>, size: int, maxSize: nat,
                     accepted: seq<Event>, delivered: seq<Event>, refused: seq<Event>)

  /** `nextId` is the counter behind iotx_report_id; `inserted` and `silenced` record the past. */
  datatype State = State(cache: seq<Entry>, cacheSize: int, nextId: nat, ipc: Ipc,
                         inserted: seq<nat>, silenced: seq<nat>)

  function Initial(maxSize: nat): State {
    State([], 0, 0, Ipc([], 0, maxSize, [], [], []), [], [])
  }

  // ---------------------------------------------------------------- steps

  /** What the program does between dispatches, and what the event callback may do inside one. */
  datatype Act =
    | Request(devid: int, kind: int, now: nat, expectsReply: bool)
    | CloudReply(msgid: int)
    | Post(tag: int)

  /** A callback may keep state of its own: it is told which turn of the dispatch it is in, so that it can
      treat equal events differently. */
  datatype Step = Do(act: Act) | Dispatch(now: nat, callback: (nat, Event) -> seq<Act>)

  /** _dm_msg_send_to_user over dm_ipc_msg_insert */
  function Send(ipc: Ipc, e: Event): Ipc {
    if ipc.size >= ipc.maxSize then ipc.(refused := ipc.refused + [e])
    else ipc.(queue := ipc.queue + [e], size := ipc.size + 1, accepted := ipc.accepted + [e])
  }

  function FirstById(cache: seq<Entry>, msgid: int): (i: nat)
    ensures i <= |cache|
    ensures i < |cache| ==> cache[i].msgid == msgid
    ensures forall j :: 0 <= j < i ==> cache[j].msgid != msgid
  {
    if cache == [] || cache[0].msgid == msgid then 0 else 1 + FirstById(cache[1..], msgid)
  }

  function DoRequest(s: State, devid: int, kind: int, now: nat, expectsReply: bool): State {
    var t := s.(nextId := s.nextId + 1);
    if !expectsReply || s.cacheSize >= CACHE_MAXLEN then t
    else t.(cache := s.cache + [Entry(s.nextId, devid, kind, now)], cacheSize := s.cacheSize + 1,
            inserted := s.inserted + [s.nextId])
  }

  /** A reply handler searches the cache, which rejects ids that are not positive, and reports to the
      user on success; the processor around it then removes the id in any case. */
  function DoReply(s: State, msgid: int): State {
    var i := FirstById(s.cache, msgid);
    if i == |s.cache| then s else
    s.(cache := s.cache[..i] + s.cache[i + 1..], cacheSize := s.cacheSize - 1,
       ipc := if msgid > 0 then Send(s.ipc, Reply(msgid, s.cache[i].devid)) else s.ipc,
       silenced := if msgid > 0 then s.silenced else s.silenced + [s.cache[i].msgid])
  }

  function DoAct(s: State, act: Act): State {
    match act
    case Request(devid, kind, now, expectsReply) => DoRequest(s, devid, kind, now, expectsReply)
    case CloudReply(msgid) => DoReply(s, msgid)
    case Post(tag) => s.(ipc := Send(s.ipc, Other(tag)))
  }

  function DoActs(s: State, acts: seq<Act>): State
    decreases |acts|
  {
    if acts == [] then s else DoActs(DoAct(s, acts[0]), acts[1..])
  }

  predicate Expired(e: Entry, now: nat) { now >= e.ctime + TIMEOUT_MS }

  /** A clock that went back resets the creation time of an entry. */
  function Aged(e: Entry, now: nat): Entry { if now < e.ctime then e.(ctime := now) else e }

  function TickKept(todo: seq<Entry>, now: nat): seq<Entry> {
    if todo == [] then [] else
    (if Expired(todo[0], now) then [] else [Aged(todo[0], now)]) + TickKept(todo[1..], now)
  }

  function TickIpc(ipc: Ipc, todo: seq<Entry>, now: nat): Ipc
    decreases |todo|
  {
    if todo == [] then ipc else
    var e := todo[0];
    TickIpc(if Expired(e, now) then Send(ipc, Timeout(e.msgid, e.devid, e.kind)) else ipc, todo[1..], now)
  }

  function DoTick(s: State, now: nat): State {
    s.(cache := TickKept(s.cache, now), cacheSize := s.cacheSize - (|s.cache| - |TickKept(s.cache, now)|),
       ipc := TickIpc(s.ipc, s.cache, now))
  }

  /** dm_ipc_msg_next on a queue that is not empty */
  function Next(s: State): State
    requires s.ipc.queue != []
  {
    s.(ipc := s.ipc.(queue := s.ipc.queue[1..], size := s.ipc.size - 1,
                     delivered := s.ipc.delivered + [s.ipc.queue[0]]))
  }

  /** At most `left` turns of the dispatch loop. */
  function Deliver(s: State, left: nat, callback: (nat, Event) -> seq<Act>): State
    decreases left
  {
    if left == 0 || s.ipc.queue == [] then s
    else Deliver(DoActs(Next(s), callback(left, s.ipc.queue[0])), left - 1, callback)
  }

  function DoStep(s: State, step: Step): State {
    match step
    case Do(act) => DoAct(s, act)
    case Dispatch(now, callback) => Deliver(DoTick(s, now), s.ipc.maxSize, callback)
  }

  function Run(s: State, steps: seq<Step>): State
    decreases |steps|
  {
    if steps == [] then s else Run(DoStep(s, steps[0]), steps[1..])
  }

  // ---------------------------------------------------------------- the invariant

  /** The queue is bounded, and events leave it in the order in which it accepted them. */
  predicate IpcOk(ipc: Ipc) {
    ipc.size == |ipc.queue| <= ipc.maxSize && ipc.accepted == ipc.delivered + ipc.queue
  }

  predicate CacheOk(cache: seq<Entry>, nextId: nat) {
    && (forall i :: 0 <= i < |cache| ==> cache[i].msgid < nextId)
    && (forall i, j :: 0 <= i < j < |cache| ==> cache[i].msgid < cache[j].msgid)
  }

  predicate Inv(s: State) {
    IpcOk(s.ipc) && CacheOk(s.cache, s.nextId) && s.cacheSize == |s.cache| <= CACHE_MAXLEN
  }

  lemma {:induction false} SendKeepsIpc(ipc: Ipc, e: Event)
    requires IpcOk(ipc)
    ensures IpcOk(Send(ipc, e)) && Send(ipc, e).maxSize == ipc.maxSize && Send(ipc, e).delivered == ipc.delivered
  {
    assert ipc.delivered + (ipc.queue + [e]) == (ipc.delivered + ipc.queue) + [e];
  }

  lemma {:induction false} TickKeepsIpc(ipc: Ipc, todo: seq<Entry>, now: nat)
    requires IpcOk(ipc)
    ensures IpcOk(TickIpc(ipc, todo, now)) && TickIpc(ipc, todo, now).maxSize == ipc.maxSize
    ensures TickIpc(ipc, todo, now).delivered == ipc.delivered
    decreases |todo|
  {
    if todo != [] {
      var e := todo[0];
      SendKeepsIpc(ipc, Timeout(e.msgid, e.devid, e.kind));
      hide Send, IpcOk, Expired;
      TickKeepsIpc(if Expired(e, now) then Send(ipc, Timeout(e.msgid, e.devid, e.kind)) else ipc, todo[1..], now);
    }
  }

  lemma {:induction false} TickKeepsCache(todo: seq<Entry>, now: nat, nextId: nat)
    requires CacheOk(todo, nextId)
    ensures CacheOk(TickKept(todo, now), nextId) && |TickKept(todo, now)| <= |todo|
    ensures todo != [] ==> forall k :: 0 <= k < |TickKept(todo, now)| ==> todo[0].msgid <= TickKept(todo, now)[k].msgid
  {
    if todo != [] {
      var rest := todo[1..];
      assert CacheOk(rest, nextId);
      TickKeepsCache(rest, now, nextId);
      if rest != [] {
        assert forall k :: 0 <= k < |TickKept(rest, now)| ==> todo[0].msgid < TickKept(rest, now)[k].msgid;
      }
    }
  }

  lemma RemoveKeepsCache(cache: seq<Entry>, nextId: nat, i: nat)
    requires CacheOk(cache, nextId) && i < |cache|
    ensures CacheOk(cache[..i] + cache[i + 1..], nextId)
  {
  }

  lemma {:induction false} ActKeepsInv(s: State, act: Act)
    requires Inv(s)
    ensures Inv(DoAct(s, act)) && DoAct(s, act).ipc.maxSize == s.ipc.maxSize
    ensures DoAct(s, act).ipc.delivered == s.ipc.delivered
  {
    match act
    case Request(_, _, _, _) =>
    case CloudReply(msgid) =>
      var i := FirstById(s.cache, msgid);
      if i < |s.cache| {
        RemoveKeepsCache(s.cache, s.nextId, i);
        SendKeepsIpc(s.ipc, Reply(msgid, s.cache[i].devid));
      }
    case Post(tag) => SendKeepsIpc(s.ipc, Other(tag));
  }

  lemma {:induction false} ActsKeepInv(s: State, acts: seq<Act>)
    requires Inv(s)
    ensures Inv(DoActs(s, acts)) && DoActs(s, acts).ipc.maxSize == s.ipc.maxSize
    ensures DoActs(s, acts).ipc.delivered == s.ipc.delivered
    decreases |acts|
  {
    if acts != [] {
      ActKeepsInv(s, acts[0]);
      ActsKeepInv(DoAct(s, acts[0]), acts[1..]);
    }
  }

  lemma {:induction false} NextKeepsInv(s: State)
    requires Inv(s) && s.ipc.queue != []
    ensures Inv(Next(s))
  {
    assert s.ipc.queue == [s.ipc.queue[0]] + s.ipc.queue[1..];
  }

  /** A dispatch delivers at most as many events as the queue can hold, and stops earlier only because
      the queue is empty, whatever the callback adds to it meanwhile. */
  lemma {:induction false} DeliverKeepsInv(s: State, left: nat, callback: (nat, Event) -> seq<Act>)
    requires Inv(s)
    ensures var t := Deliver(s, left, callback);
      && Inv(t) && t.ipc.maxSize == s.ipc.maxSize && s.ipc.delivered <= t.ipc.delivered
      && |t.ipc.delivered| <= |s.ipc.delivered| + left
      && (t.ipc.queue == [] || |t.ipc.delivered| == |s.ipc.delivered| + left)
    decreases left
  {
    if left != 0 && s.ipc.queue != [] {
      NextKeepsInv(s);
      var acts := callback(left, s.ipc.queue[0]);
      ActsKeepInv(Next(s), acts);
      hide Inv, DoActs;
      DeliverKeepsInv(DoActs(Next(s), acts), left - 1, callback);
    }
  }

  /** One turn of the dispatch loop. */
  lemma {:induction false} DeliverTurn(s: State, left: nat, callback: (nat, Event) -> seq<Act>)
    requires Inv(s) && 0 < left && s.ipc.queue != []
    ensures var t := DoActs(Next(s), callback(left, s.ipc.queue[0]));
      Deliver(s, left, callback) == Deliver(t, left - 1, callback) && Inv(t)
  {
    NextKeepsInv(s);
    ActsKeepInv(Next(s), callback(left, s.ipc.queue[0]));
    hide DoActs;
  }

  lemma DeliverEnds(s: State, left: nat, callback: (nat, Event) -> seq<Act>)
    requires left == 0 || s.ipc.queue == []
    ensures Deliver(s, left, callback) == s
  {
  }

  lemma RoomForQueue(s: State)
    requires Inv(s) && s.ipc.queue != []
    ensures 0 < s.ipc.maxSize
  {
  }

  lemma {:induction false} TickKeepsInv(s: State, now: nat)
    requires Inv(s)
    ensures Inv(DoTick(s, now)) && DoTick(s, now).ipc.maxSize == s.ipc.maxSize
    ensures DoTick(s, now).ipc.delivered == s.ipc.delivered
  {
    TickKeepsIpc(s.ipc, s.cache, now);
    TickKeepsCache(s.cache, now, s.nextId);
  }

  lemma {:induction false} StepKeepsInv(s: State, step: Step)
    requires Inv(s)
    ensures Inv(DoStep(s, step)) && DoStep(s, step).ipc.maxSize == s.ipc.maxSize
  {
    match step
    case Do(act) => ActKeepsInv(s, act);
    case Dispatch(now, callback) =>
      TickKeepsInv(s, now);
      DeliverKeepsInv(DoTick(s, now), s.ipc.maxSize, callback);
  }

  /** Bounded, order-preserving delivery and a bounded cache of increasing ids, in every reachable state. */
  lemma {:induction false} RunKeepsInv(s: State, steps: seq<Step>)
    requires Inv(s)
    ensures Inv(Run(s, steps)) && Run(s, steps).ipc.maxSize == s.ipc.maxSize
    decreases |steps|
  {
    if steps != [] {
      StepKeepsInv(s, steps[0]);
      RunKeepsInv(DoStep(s, steps[0]), steps[1..]);
    }
  }

  // ---------------------------------------------------------------- one outcome per request

  predicate IsOutcome(e: Event, u: nat) { !e.Other? && e.msgid == u }

  function Outcomes(es: seq<Event>, u: nat): nat {
    if es == [] then 0 else Outcomes(es[..|es| - 1], u) + (if IsOutcome(es[|es| - 1], u) then 1 else 0)
  }

  function Times(ids: seq<nat>, u: nat): nat {
    if ids == [] then 0 else Times(ids[..|ids| - 1], u) + (if ids[|ids| - 1] == u then 1 else 0)
  }

  predicate Cached(cache: seq<Entry>, u: nat) { exists i :: 0 <= i < |cache| && cache[i].msgid == u }

  /** The outcomes of request `u` so far: those the user queue accepted and those it refused when full. */
  function Resolved(ipc: Ipc, u: nat): nat { Outcomes(ipc.accepted, u) + Outcomes(ipc.refused, u) }

  /** Every cached request is in exactly one place: still waiting, resolved once, or, for the id 0 that
      the search rejects, silently removed. */
  predicate Conserved(s: State, u: nat) {
    && Times(s.inserted, u) <= 1
    && Times(s.inserted, u) == (if Cached(s.cache, u) then 1 else 0) + Resolved(s.ipc, u) + Times(s.silenced, u)
    && (u > 0 ==> Times(s.silenced, u) == 0)
    && (s.nextId <= u ==> Times(s.inserted, u) == 0)
  }

  lemma {:induction false} SendResolves(ipc: Ipc, e: Event, u: nat)
    ensures Resolved(Send(ipc, e), u) == Resolved(ipc, u) + (if IsOutcome(e, u) then 1 else 0)
  {
    assert (ipc.accepted + [e])[..|ipc.accepted|] == ipc.accepted;
    assert (ipc.refused + [e])[..|ipc.refused|] == ipc.refused;
  }

  lemma {:induction false} TimesSnoc(ids: seq<nat>, id: nat, u: nat)
    ensures Times(ids + [id], u) == Times(ids, u) + (if id == u then 1 else 0)
  {
    assert (ids + [id])[..|ids|] == ids;
  }

  lemma {:induction false} RemoveUncaches(cache: seq<Entry>, nextId: nat, i: nat, u: nat)
    requires CacheOk(cache, nextId) && i < |cache|
    ensures Cached(cache[..i] + cache[i + 1..], u) <==> Cached(cache, u) && u != cache[i].msgid
  {
    var rest := cache[..i] + cache[i + 1..];
    if Cached(cache, u) && u != cache[i].msgid {
      var k :| 0 <= k < |cache| && cache[k].msgid == u;
      assert rest[if k < i then k else k - 1].msgid == u;
    }
    if Cached(rest, u) {
      var k :| 0 <= k < |rest| && rest[k].msgid == u;
      assert cache[if k < i then k else k + 1].msgid == u;
    }
  }

  lemma {:induction false} RequestConserves(s: State, devid: int, kind: int, now: nat, expectsReply: bool, u: nat)
    requires Inv(s) && Conserved(s, u)
    ensures Conserved(DoRequest(s, devid, kind, now, expectsReply), u)
  {
    TimesSnoc(s.inserted, s.nextId, u);
    CachedAppend(s.cache, Entry(s.nextId, devid, kind, now), u);
    assert u >= s.nextId ==> !Cached(s.cache, u);
    hide Resolved, Times, Cached;
  }

  lemma {:induction false} CachedAppend(cache: seq<Entry>, e: Entry, u: nat)
    ensures Cached(cache + [e], u) <==> Cached(cache, u) || u == e.msgid
  {
    var longer := cache + [e];
    assert longer[|cache|] == e;
    if Cached(cache, u) {
      var k :| 0 <= k < |cache| && cache[k].msgid == u;
      assert longer[k].msgid == u;
    }
  }

  lemma IsCached(cache: seq<Entry>, i: nat)
    requires i < |cache|
    ensures Cached(cache, cache[i].msgid)
  {
  }

  lemma {:induction false} ReplyConserves(s: State, msgid: int, u: nat)
    requires Inv(s) && Conserved(s, u)
    ensures Conserved(DoReply(s, msgid), u)
  {
    hide Resolved, Times, Cached, Send, IpcOk, CacheOk;
    var i := FirstById(s.cache, msgid);
    if i < |s.cache| {
      IsCached(s.cache, i);
      RemoveUncaches(s.cache, s.nextId, i, u);
      SendResolves(s.ipc, Reply(msgid, s.cache[i].devid), u);
      TimesSnoc(s.silenced, s.cache[i].msgid, u);
    }
  }

  /** The reply to a cached request resolves it if and only if its id is positive, and the user gets to
      see that if and only if the queue has room as well; the entry is gone in any case. */
  lemma {:induction false} ReplyResolvesIff(s: State, i: nat)
    requires Inv(s) && i < |s.cache|
    ensures var u, t := s.cache[i].msgid, DoReply(s, s.cache[i].msgid);
      && !Cached(t.cache, u)
      && (Resolved(t.ipc, u) == Resolved(s.ipc, u) + 1 <==> u > 0)
      && (Outcomes(t.ipc.accepted, u) == Outcomes(s.ipc.accepted, u) + 1 <==> u > 0 && |s.ipc.queue| < s.ipc.maxSize)
      && (u == 0 ==> t.ipc == s.ipc)
  {
    var u := s.cache[i].msgid;
    assert s.ipc.size == |s.ipc.queue|;
    hide Cached, Resolved, Send, IpcOk, Outcomes;
    assert FirstById(s.cache, u) == i;
    RemoveUncaches(s.cache, s.nextId, i, u);
    SendResolves(s.ipc, Reply(u, s.cache[i].devid), u);
    SendAccepts(s.ipc, Reply(u, s.cache[i].devid), u);
  }

  lemma {:induction false} SendAccepts(ipc: Ipc, e: Event, u: nat)
    ensures Outcomes(Send(ipc, e).accepted, u)
         == Outcomes(ipc.accepted, u) + (if IsOutcome(e, u) && ipc.size < ipc.maxSize then 1 else 0)
  {
    assert (ipc.accepted + [e])[..|ipc.accepted|] == ipc.accepted;
  }

  /** A full queue loses an outcome: with room for one event, and that one posted before, the reply to
      request 1 takes it out of the cache and is refused. */
  lemma {:induction false} FullQueueLosesReply(devid: int, kind: int, now: nat, tag: int)
    ensures var s := Run(Initial(1), [Do(Request(devid, kind, now, false)), Do(Request(devid, kind, now, true)),
                                      Do(Post(tag)), Do(CloudReply(1))]);
      && s.inserted == [1] && s.cache == [] && s.ipc.queue == s.ipc.accepted == [Other(tag)]
      && s.ipc.refused == [Reply(1, devid)]
  {
    var first, second := Do(Request(devid, kind, now, false)), Do(Request(devid, kind, now, true));
    var post, reply := Do(Post(tag)), Do(CloudReply(1));
    var s1 := DoStep(Initial(1), first);
    var s2 := DoStep(s1, second);
    var s3 := DoStep(s2, post);
    assert s2.cache == [Entry(1, devid, kind, now)] && s3.cache == s2.cache;
    RunStep(s3, reply, []);
    RunStep(s2, post, [reply]);
    RunStep(s1, second, [post, reply]);
    RunStep(Initial(1), first, [second, post, reply]);
    assert [post] + [reply] == [post, reply] && [second] + [post, reply] == [second, post, reply];
    assert [first] + [second, post, reply] == [first, second, post, reply] && [reply] + [] == [reply];
    hide Run;
  }

  lemma {:induction false} RunStep(s: State, step: Step, rest: seq<Step>)
    ensures Run(s, [step] + rest) == Run(DoStep(s, step), rest) && Run(s, []) == s
  {
    assert ([step] + rest)[1..] == rest;
  }

  /** The very first request is such a case: its id is 0, and its reply removes it without an outcome. */
  lemma {:induction false} FirstRequestIsSilenced(maxSize: nat, devid: int, kind: int, now: nat)
    ensures var s := Run(Initial(maxSize), [Do(Request(devid, kind, now, true)), Do(CloudReply(0))]);
      && s.inserted == [0] && s.silenced == [0] && s.cache == []
      && Resolved(s.ipc, 0) == 0 && s.ipc == Initial(maxSize).ipc
  {
    var request, reply := Do(Request(devid, kind, now, true)), Do(CloudReply(0));
    var s := DoStep(Initial(maxSize), request);
    assert s.cache == [Entry(0, devid, kind, now)];
    assert [request, reply][1..] == [reply] && [reply][1..] == [];
    assert Run(s, [reply]) == Run(DoStep(s, reply), []) == DoStep(s, reply);
    assert Run(Initial(maxSize), [request, reply]) == Run(s, [reply]);
    assert Outcomes([], 0) == 0;
  }

  lemma {:induction false} ActConserves(s: State, act: Act, u: nat)
    requires Inv(s) && Conserved(s, u)
    ensures Conserved(DoAct(s, act), u)
  {
    match act
    case Request(devid, kind, now, expectsReply) => RequestConserves(s, devid, kind, now, expectsReply, u);
    case CloudReply(msgid) => ReplyConserves(s, msgid, u);
    case Post(tag) =>
      SendResolves(s.ipc, Other(tag), u);
      hide Resolved, Times, Cached, Send;
  }

  lemma {:induction false} ActsConserve(s: State, acts: seq<Act>, u: nat)
    requires Inv(s) && Conserved(s, u)
    ensures Conserved(DoActs(s, acts), u)
    decreases |acts|
  {
    if acts != [] {
      ActKeepsInv(s, acts[0]);
      ActConserves(s, acts[0], u);
      hide Inv, Conserved, DoAct;
      ActsConserve(DoAct(s, acts[0]), acts[1..], u);
    }
  }

  lemma {:induction false} CachedSplit(todo: seq<Entry>, u: nat)
    requires todo != []
    ensures Cached(todo, u) <==> todo[0].msgid == u || Cached(todo[1..], u)
  {
    if Cached(todo, u) && todo[0].msgid != u {
      var k :| 0 <= k < |todo| && todo[k].msgid == u;
      assert todo[1..][k - 1].msgid == u;
    }
    if Cached(todo[1..], u) {
      var k :| 0 <= k < |todo[1..]| && todo[1..][k].msgid == u;
      assert todo[k + 1].msgid == u;
    }
  }

  /** What one tick does to request `u`: expired entries leave with one outcome each. */
  lemma {:induction false} TickMoves(ipc: Ipc, todo: seq<Entry>, now: nat, nextId: nat, u: nat)
    requires CacheOk(todo, nextId)
    ensures Resolved(TickIpc(ipc, todo, now), u) + (if Cached(TickKept(todo, now), u) then 1 else 0)
         == Resolved(ipc, u) + (if Cached(todo, u) then 1 else 0)
    decreases |todo|
  {
    if todo != [] {
      hide Cached, Resolved, Expired, Aged, Send, CacheOk;
      var e, rest := todo[0], todo[1..];
      var next := if Expired(e, now) then Send(ipc, Timeout(e.msgid, e.devid, e.kind)) else ipc;
      SendResolves(ipc, Timeout(e.msgid, e.devid, e.kind), u);
      TailKeepsCache(todo, nextId);
      TickMoves(next, rest, now, nextId, u);
      CachedSplit(todo, u);
      KeptHead(e, now, TickKept(rest, now), u);
      GoneFromTail(todo, now, nextId);
    }
  }

  lemma {:induction false} TailKeepsCache(todo: seq<Entry>, nextId: nat)
    requires CacheOk(todo, nextId) && todo != []
    ensures CacheOk(todo[1..], nextId) && !Cached(todo[1..], todo[0].msgid)
  {
    forall i | 0 <= i < |todo[1..]| ensures todo[1..][i].msgid > todo[0].msgid {
      assert todo[1..][i] == todo[i + 1];
    }
  }

  lemma {:induction false} TickConserves(s: State, now: nat, u: nat)
    requires Inv(s) && Conserved(s, u)
    ensures Conserved(DoTick(s, now), u)
  {
    TickMoves(s.ipc, s.cache, now, s.nextId, u);
    hide Resolved, Cached, TickIpc, TickKept, Times;
  }

  lemma {:induction false} DeliverConserves(s: State, left: nat, callback: (nat, Event) -> seq<Act>, u: nat)
    requires Inv(s) && Conserved(s, u)
    ensures Conserved(Deliver(s, left, callback), u)
    decreases left
  {
    if left != 0 && s.ipc.queue != [] {
      NextKeepsInv(s);
      assert Conserved(Next(s), u);
      var acts := callback(left, s.ipc.queue[0]);
      ActsKeepInv(Next(s), acts);
      ActsConserve(Next(s), acts, u);
      hide Inv, Conserved, DoActs;
      DeliverConserves(DoActs(Next(s), acts), left - 1, callback, u);
    }
  }

  lemma {:induction false} StepConserves(s: State, step: Step, u: nat)
    requires Inv(s) && Conserved(s, u)
    ensures Conserved(DoStep(s, step), u)
  {
    match step
    case Do(act) => ActConserves(s, act, u);
    case Dispatch(now, callback) =>
      TickKeepsInv(s, now);
      TickConserves(s, now, u);
      DeliverConserves(DoTick(s, now), s.ipc.maxSize, callback, u);
  }

  lemma {:induction false} RunConserves(s: State, steps: seq<Step>, u: nat)
    requires Inv(s) && Conserved(s, u)
    ensures Conserved(Run(s, steps), u)
    decreases |steps|
  {
    if steps != [] {
      StepKeepsInv(s, steps[0]);
      StepConserves(s, steps[0], u);
      hide Inv, Conserved, DoStep;
      RunConserves(DoStep(s, steps[0]), steps[1..], u);
    }
  }

  function Timeouts(todo: seq<Entry>, now: nat): seq<Event> {
    if todo == [] then [] else
    (if Expired(todo[0], now) then [Timeout(todo[0].msgid, todo[0].devid, todo[0].kind)] else [])
    + Timeouts(todo[1..], now)
  }

  /** Of the timeouts of a tick the queue accepts as many as it has room for, the oldest first, and refuses
      the others. */
  lemma {:induction false} TickFillsQueue(ipc: Ipc, todo: seq<Entry>, now: nat)
    requires IpcOk(ipc)
    ensures var events, room := Timeouts(todo, now), ipc.maxSize - |ipc.queue|;
      var k := if |events| < room then |events| else room;
      && TickIpc(ipc, todo, now).accepted == ipc.accepted + events[..k]
      && TickIpc(ipc, todo, now).refused == ipc.refused + events[k..]
    decreases |todo|
  {
    if todo != [] {
      var e := Timeout(todo[0].msgid, todo[0].devid, todo[0].kind);
      var next := if Expired(todo[0], now) then Send(ipc, e) else ipc;
      SendKeepsIpc(ipc, e);
      TickFillsQueue(next, todo[1..], now);
      var rest := Timeouts(todo[1..], now);
      assert Timeouts(todo, now) == (if Expired(todo[0], now) then [e] else []) + rest;
      hide TickIpc, Timeouts, Expired;
      if Expired(todo[0], now) {
        FirstTimeout(ipc, e, rest);
      } else {
        assert [] + rest == rest;
      }
    }
  }

  /** What becomes of one timeout, and of those behind it. */
  lemma {:induction false} FirstTimeout(ipc: Ipc, e: Event, rest: seq<Event>)
    requires IpcOk(ipc)
    ensures var next, room := Send(ipc, e), ipc.maxSize - |ipc.queue|;
      var k := if 1 + |rest| < room then 1 + |rest| else room;
      var room' := next.maxSize - |next.queue|;
      var k' := if |rest| < room' then |rest| else room';
      && 0 <= k' <= |rest| && 0 <= k <= 1 + |rest|
      && next.accepted + rest[..k'] == ipc.accepted + ([e] + rest)[..k]
      && next.refused + rest[k'..] == ipc.refused + ([e] + rest)[k..]
  {
    var room := ipc.maxSize - |ipc.queue|;
    if room == 0 {
      assert ([e] + rest)[..0] == [] && rest[..0] == [];
      assert ([e] + rest)[0..] == [e] + rest && rest[0..] == rest;
    } else {
      var k := if 1 + |rest| < room then 1 + |rest| else room;
      assert ([e] + rest)[..k] == [e] + rest[..k - 1] && ([e] + rest)[k..] == rest[k - 1..];
    }
  }

  /** At most one outcome per request, over every run from start-up, with callbacks of any kind. */
  lemma {:induction false} AtMostOneOutcome(maxSize: nat, steps: seq<Step>, u: nat)
    ensures var s := Run(Initial(maxSize), steps);
      Conserved(s, u) && Outcomes(s.ipc.accepted, u) <= 1 && Outcomes(s.ipc.delivered, u) <= 1
  {
    var init, s := Initial(maxSize), Run(Initial(maxSize), steps);
    assert Conserved(init, u);
    RunConserves(init, steps, u);
    RunKeepsInv(init, steps);
    OutcomesOfPrefix(s.ipc.delivered, s.ipc.queue, u);
  }

  lemma {:induction false} OutcomesOfPrefix(a: seq<Event>, b: seq<Event>, u: nat)
    ensures Outcomes(a, u) <= Outcomes(a + b, u)
  {
    if b == [] {
      assert a + b == a;
    } else {
      assert (a + b)[..|a + b| - 1] == a + b[..|b| - 1];
      OutcomesOfPrefix(a, b[..|b| - 1], u);
    }
  }

  /** An entry is removed by a tick exactly when it is ten seconds old; its outcome is then accepted or,
      by a full queue, refused. */
  lemma {:induction false} TickIsExact(s: State, now: nat, i: nat)
    requires Inv(s) && i < |s.cache|
    ensures var u, t := s.cache[i].msgid, DoTick(s, now);
      && (Cached(t.cache, u) <==> now < s.cache[i].ctime + TIMEOUT_MS)
      && Resolved(t.ipc, u) == Resolved(s.ipc, u) + (if now < s.cache[i].ctime + TIMEOUT_MS then 0 else 1)
  {
    assert Cached(s.cache, s.cache[i].msgid);
    KeptIffFresh(s.cache, now, s.nextId, i);
    TickMoves(s.ipc, s.cache, now, s.nextId, s.cache[i].msgid);
    hide Cached, Resolved, TickIpc, TickKept;
  }

  lemma {:induction false} KeptHead(e: Entry, now: nat, tail: seq<Entry>, u: nat)
    ensures Cached((if Expired(e, now) then [] else [Aged(e, now)]) + tail, u)
       <==> Cached(tail, u) || (!Expired(e, now) && e.msgid == u)
  {
    if Expired(e, now) {
      assert [] + tail == tail;
    } else {
      CachedSplit([Aged(e, now)] + tail, u);
      assert ([Aged(e, now)] + tail)[1..] == tail;
    }
  }

  lemma {:induction false} GoneFromTail(todo: seq<Entry>, now: nat, nextId: nat)
    requires CacheOk(todo, nextId) && todo != []
    ensures !Cached(TickKept(todo[1..], now), todo[0].msgid)
  {
    TickKeepsCache(todo[1..], now, nextId);
    hide TickKept;
  }

  lemma {:induction false} KeptIffFresh(todo: seq<Entry>, now: nat, nextId: nat, i: nat)
    requires CacheOk(todo, nextId) && i < |todo|
    ensures Cached(TickKept(todo, now), todo[i].msgid) <==> !Expired(todo[i], now)
  {
    hide Cached, Expired, Aged;
    KeptHead(todo[0], now, TickKept(todo[1..], now), todo[i].msgid);
    GoneFromTail(todo, now, nextId);
    if i > 0 {
      KeptIffFresh(todo[1..], now, nextId, i - 1);
    }
  }

  /** Once a request is no longer cached, late or duplicate replies and ticks add no outcome for it. */
  lemma {:induction false} NoSecondOutcome(s: State, steps: seq<Step>, u: nat)
    requires Inv(s) && Conserved(s, u) && u < s.nextId && !Cached(s.cache, u)
    ensures Resolved(Run(s, steps).ipc, u) == Resolved(s.ipc, u) && !Cached(Run(s, steps).cache, u)
  {
    RunSettles(s, steps, u);
    RunConserves(s, steps, u);
  }

  /** When the first id goes to a report that is not cached, no reply of any run removes an entry without
      an outcome: every cached request is waiting or resolved exactly once. */
  lemma {:induction false} ReportFirst(maxSize: nat, devid: int, kind: int, now: nat, steps: seq<Step>, u: nat)
    ensures var s := Run(DoRequest(Initial(maxSize), devid, kind, now, false), steps);
      && Times(s.silenced, u) == 0
      && Times(s.inserted, u) == (if Cached(s.cache, u) then 1 else 0) + Resolved(s.ipc, u)
  {
    var s := DoRequest(Initial(maxSize), devid, kind, now, false);
    assert Inv(s) && Conserved(s, u) && Times(s.inserted, u) == 0;
    RunConserves(s, steps, u);
    if u == 0 {
      RunSettles(s, steps, u);
    }
    hide Run, Resolved, Cached, Times, DoRequest, Inv;
  }

  /** What has been settled about an old request stays settled: it is not inserted again. */
  predicate Settled(s: State, t: State, u: nat) {
    && s.nextId <= t.nextId
    && Times(t.inserted, u) == Times(s.inserted, u)
    && Resolved(s.ipc, u) <= Resolved(t.ipc, u) && Times(s.silenced, u) <= Times(t.silenced, u)
  }

  lemma {:induction false} ActSettles(s: State, act: Act, u: nat)
    requires u < s.nextId
    ensures Settled(s, DoAct(s, act), u)
  {
    hide Resolved, Times, Send;
    match act
    case Request(_, _, _, _) => TimesSnoc(s.inserted, s.nextId, u);
    case CloudReply(msgid) =>
      var i := FirstById(s.cache, msgid);
      if i < |s.cache| {
        SendResolves(s.ipc, Reply(msgid, s.cache[i].devid), u);
        TimesSnoc(s.silenced, s.cache[i].msgid, u);
      }
    case Post(tag) => SendResolves(s.ipc, Other(tag), u);
  }

  lemma {:induction false} ActsSettle(s: State, acts: seq<Act>, u: nat)
    requires u < s.nextId
    ensures Settled(s, DoActs(s, acts), u)
    decreases |acts|
  {
    if acts != [] {
      ActSettles(s, acts[0], u);
      hide DoAct, Times, Resolved;
      ActsSettle(DoAct(s, acts[0]), acts[1..], u);
    }
  }

  lemma {:induction false} TickIpcSettles(ipc: Ipc, todo: seq<Entry>, now: nat, u: nat)
    ensures Resolved(ipc, u) <= Resolved(TickIpc(ipc, todo, now), u)
    decreases |todo|
  {
    if todo != [] {
      var e := todo[0];
      SendResolves(ipc, Timeout(e.msgid, e.devid, e.kind), u);
      hide Send, Resolved;
      TickIpcSettles(if Expired(e, now) then Send(ipc, Timeout(e.msgid, e.devid, e.kind)) else ipc, todo[1..], now, u);
    }
  }

  lemma {:induction false} DeliverSettles(s: State, left: nat, callback: (nat, Event) -> seq<Act>, u: nat)
    requires u < s.nextId
    ensures Settled(s, Deliver(s, left, callback), u)
    decreases left
  {
    if left != 0 && s.ipc.queue != [] {
      var acts := callback(left, s.ipc.queue[0]);
      assert Settled(s, Next(s), u);
      ActsSettle(Next(s), acts, u);
      hide DoActs, Next, Times, Resolved;
      DeliverSettles(DoActs(Next(s), acts), left - 1, callback, u);
    }
  }

  lemma {:induction false} RunSettles(s: State, steps: seq<Step>, u: nat)
    requires u < s.nextId
    ensures Settled(s, Run(s, steps), u)
    decreases |steps|
  {
    if steps != [] {
      match steps[0] {
        case Do(act) => ActSettles(s, act, u);
        case Dispatch(now, callback) =>
          TickIpcSettles(s.ipc, s.cache, now, u);
          DeliverSettles(DoTick(s, now), s.ipc.maxSize, callback, u);
      }
      hide DoAct, Deliver, Times, Resolved, TickIpc, TickKept;
      RunSettles(DoStep(s, steps[0]), steps[1..], u);
    }
  }
}
