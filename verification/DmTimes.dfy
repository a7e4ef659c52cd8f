/** When the device model reports what: the exact effect of each operation on cache and queue, the ten seconds
    of a cached request over any run, and a dispatch that calls back. */
module DmTimes {
  import opened DmState

  // ---------------------------------------------------------------- single operations

  /** The number of times the user was to be told this: with room in the queue or without. */
  function Reported(ipc: Ipc, e: Event): nat { multiset(ipc.accepted)[e] + multiset(ipc.refused)[e] }

  lemma {:induction false} SendReports(ipc: Ipc, e: Event, f: Event)
    ensures Reported(Send(ipc, e), f) == Reported(ipc, f) + if e == f then 1 else 0
  {
  }

  /** An event is queued behind the others, or refused by a full queue, which it does not change. */
  lemma {:induction false} PostExactly(s: State, tag: int)
    requires Inv(s)
    ensures var t := DoAct(s, Post(tag));
      && t.cache == s.cache && t.nextId == s.nextId
      && t.ipc.queue == s.ipc.queue + (if |s.ipc.queue| < s.ipc.maxSize then [Other(tag)] else [])
      && t.ipc.refused == s.ipc.refused + (if |s.ipc.queue| < s.ipc.maxSize then [] else [Other(tag)])
  {
    assert s.ipc.queue + [] == s.ipc.queue && s.ipc.refused + [] == s.ipc.refused;
  }

  /** A request uses up an id; it is cached with its device, its kind and the time if it expects a reply and
      fewer than 50 requests are cached. */
  lemma {:induction false} RequestExactly(s: State, devid: int, kind: int, now: nat, expectsReply: bool)
    requires Inv(s)
    ensures var t := DoAct(s, Request(devid, kind, now, expectsReply));
      && t.nextId == s.nextId + 1 && t.ipc == s.ipc
      && t.cache == s.cache + if expectsReply && |s.cache| < 50 then [Entry(s.nextId, devid, kind, now)] else []
  {
    assert s.cache + [] == s.cache;
  }

  /** The reply to a cached request takes out its entry and no other, and reports the device of that entry. */
  lemma {:induction false} ReplyExactly(s: State, i: nat)
    requires Inv(s) && i < |s.cache| && s.cache[i].msgid > 0
    ensures var e, t := s.cache[i], DoAct(s, CloudReply(s.cache[i].msgid));
      && t.cache == s.cache[..i] + s.cache[i + 1..] && t.nextId == s.nextId
      && t.ipc.queue == s.ipc.queue + (if |s.ipc.queue| < s.ipc.maxSize then [Reply(e.msgid, e.devid)] else [])
      && t.ipc.refused == s.ipc.refused + (if |s.ipc.queue| < s.ipc.maxSize then [] else [Reply(e.msgid, e.devid)])
  {
    assert s.ipc.queue + [] == s.ipc.queue && s.ipc.refused + [] == s.ipc.refused;
    assert FirstById(s.cache, s.cache[i].msgid) == i;
  }

  /** A reply to a request that is not cached changes nothing. */
  lemma {:induction false} LateReplyIsIgnored(s: State, msgid: int)
    requires forall k :: 0 <= k < |s.cache| ==> s.cache[k].msgid != msgid
    ensures DoAct(s, CloudReply(msgid)) == s
  {
    assert FirstById(s.cache, msgid) == |s.cache|;
  }

  /** What a tick does to an entry: under ten seconds old it stays as it is, unless the clock went back behind
      its creation, from where it then starts again. */
  lemma {:induction false} TickEntry(todo: seq<Entry>, now: nat, nextId: nat, i: nat)
    requires CacheOk(todo, nextId) && i < |todo|
    ensures var e, kept := todo[i], TickKept(todo, now);
      && (e.ctime <= now < e.ctime + 10000 ==> e in kept)
      && (now < e.ctime ==> Entry(e.msgid, e.devid, e.kind, now) in kept)
      && (e.ctime + 10000 <= now ==> !Cached(kept, e.msgid))
  {
    KeptIffFresh(todo, now, nextId, i);
    hide Cached;
    var rest := TickKept(todo[1..], now);
    if i > 0 {
      TailKeepsCache(todo, nextId);
      TickEntry(todo[1..], now, nextId, i - 1);
      assert TickKept(todo, now) == (if Expired(todo[0], now) then [] else [Aged(todo[0], now)]) + rest;
    }
  }

  /** A tick reports the timeout of a cached request, under its device and its kind, exactly when it is ten
      seconds old, and of no other request. */
  lemma {:induction false} TickReports(ipc: Ipc, todo: seq<Entry>, now: nat, nextId: nat, e: Entry)
    requires CacheOk(todo, nextId) && (Cached(todo, e.msgid) ==> e in todo)
    ensures Reported(TickIpc(ipc, todo, now), Timeout(e.msgid, e.devid, e.kind))
         == Reported(ipc, Timeout(e.msgid, e.devid, e.kind)) + if e in todo && e.ctime + 10000 <= now then 1 else 0
    decreases |todo|
  {
    if todo != [] {
      var f, x, rest := todo[0], Timeout(e.msgid, e.devid, e.kind), todo[1..];
      var y := Timeout(f.msgid, f.devid, f.kind);
      SendReports(ipc, y, x);
      TailKeepsCache(todo, nextId);
      CachedSplit(todo, e.msgid);
      EntryOfId(todo, nextId, e);
      hide Reported, Send, CacheOk, Cached;
      TickReports(if Expired(f, now) then Send(ipc, y) else ipc, rest, now, nextId, e);
    }
  }

  /** The head and the tail of a cache share no id. */
  lemma {:induction false} EntryOfId(todo: seq<Entry>, nextId: nat, e: Entry)
    requires CacheOk(todo, nextId) && todo != [] && (Cached(todo, e.msgid) ==> e in todo)
    ensures e in todo <==> e == todo[0] || e in todo[1..]
    ensures e.msgid == todo[0].msgid ==> e == todo[0] && e !in todo[1..]
    ensures Cached(todo[1..], e.msgid) ==> e in todo[1..]
  {
    IsCached(todo, 0);
    TailKeepsCache(todo, nextId);
    CachedSplit(todo, e.msgid);
    assert todo == [todo[0]] + todo[1..];
    if e in todo[1..] {
      var k :| 0 <= k < |todo[1..]| && todo[1..][k] == e;
      IsCached(todo[1..], k);
    }
  }

  // ---------------------------------------------------------------- one request over a run

  /** The request has its entry, or none any more. */
  predicate WaitsOrGone(s: State, e: Entry) {
    e.msgid < s.nextId && (Cached(s.cache, e.msgid) ==> e in s.cache)
  }

  lemma {:induction false} ActOnEntry(s: State, act: Act, e: Entry)
    requires Inv(s) && WaitsOrGone(s, e)
    ensures WaitsOrGone(DoAct(s, act), e) && (e in s.cache && act != CloudReply(e.msgid) ==> e in DoAct(s, act).cache)
    ensures !Cached(s.cache, e.msgid) ==> !Cached(DoAct(s, act).cache, e.msgid)
  {
    match act
    case Request(devid, kind, now, _) => CachedAppend(s.cache, Entry(s.nextId, devid, kind, now), e.msgid);
    case Post(_) =>
    case CloudReply(msgid) =>
      var i := FirstById(s.cache, msgid);
      if i < |s.cache| {
        RemoveUncaches(s.cache, s.nextId, i, e.msgid);
        hide Cached, IpcOk, CacheOk, FirstById;
        if e in s.cache && e != s.cache[i] {
          RemoveKeepsOthers(s.cache, i, e);
        }
      }
  }

  lemma {:induction false} ActReportsNoTimeout(s: State, act: Act, x: Event)
    requires x.Timeout?
    ensures Reported(DoAct(s, act).ipc, x) == Reported(s.ipc, x)
  {
    hide Reported, Send;
    match act
    case Request(_, _, _, _) =>
    case Post(tag) => SendReports(s.ipc, Other(tag), x);
    case CloudReply(msgid) =>
      var i := FirstById(s.cache, msgid);
      if i < |s.cache| {
        SendReports(s.ipc, Reply(msgid, s.cache[i].devid), x);
      }
  }

  lemma {:induction false} RemoveKeepsOthers(cache: seq<Entry>, i: nat, e: Entry)
    requires i < |cache| && e in cache && e != cache[i]
    ensures e in cache[..i] + cache[i + 1..]
  {
    var k :| 0 <= k < |cache| && cache[k] == e;
    assert (cache[..i] + cache[i + 1..])[if k < i then k else k - 1] == e;
  }

  lemma {:induction false} ActsOnEntry(s: State, acts: seq<Act>, e: Entry, x: Event)
    requires Inv(s) && WaitsOrGone(s, e) && x.Timeout?
    ensures var t := DoActs(s, acts);
      && WaitsOrGone(t, e) && (e in s.cache && CloudReply(e.msgid) !in acts ==> e in t.cache)
      && (!Cached(s.cache, e.msgid) ==> !Cached(t.cache, e.msgid))
      && Reported(t.ipc, x) == Reported(s.ipc, x)
    decreases |acts|
  {
    if acts != [] {
      ActOnEntry(s, acts[0], e);
      ActReportsNoTimeout(s, acts[0], x);
      ActKeepsInv(s, acts[0]);
      hide Inv, WaitsOrGone, Cached, Reported, DoAct;
      ActsOnEntry(DoAct(s, acts[0]), acts[1..], e, x);
    }
  }

  /** A callback that takes no reply to this request. */
  ghost predicate QuietCallback(callback: (nat, Event) -> seq<Act>, u: nat) {
    forall k, f :: CloudReply(u) !in callback(k, f)
  }

  lemma NextReports(s: State, e: Entry, x: Event)
    requires s.ipc.queue != []
    ensures Next(s).cache == s.cache && (WaitsOrGone(Next(s), e) <==> WaitsOrGone(s, e))
    ensures Reported(Next(s).ipc, x) == Reported(s.ipc, x)
  {
  }

  lemma {:induction false} DeliverOnEntry(s: State, left: nat, callback: (nat, Event) -> seq<Act>, e: Entry, x: Event)
    requires Inv(s) && WaitsOrGone(s, e) && x.Timeout?
    ensures var t := Deliver(s, left, callback);
      && WaitsOrGone(t, e) && (e in s.cache && QuietCallback(callback, e.msgid) ==> e in t.cache)
      && (!Cached(s.cache, e.msgid) ==> !Cached(t.cache, e.msgid))
      && Reported(t.ipc, x) == Reported(s.ipc, x)
    decreases left
  {
    if left != 0 && s.ipc.queue != [] {
      var n, acts := Next(s), callback(left, s.ipc.queue[0]);
      NextKeepsInv(s);
      NextReports(s, e, x);
      hide Inv, Cached, Reported, DoActs, Next;
      ActsOnEntry(n, acts, e, x);
      ActsKeepInv(n, acts);
      assert QuietCallback(callback, e.msgid) ==> CloudReply(e.msgid) !in acts;
      hide QuietCallback;
      DeliverOnEntry(DoActs(n, acts), left - 1, callback, e, x);
    }
  }

  /** Ten seconds after the creation time of the entry. */
  predicate Expires(step: Step, e: Entry) { step.Dispatch? && e.ctime + 10000 <= step.now }

  function AgedBy(step: Step, e: Entry): Entry {
    if step.Dispatch? && step.now < e.ctime then e.(ctime := step.now) else e
  }

  ghost predicate Quiet(step: Step, u: nat) {
    match step
    case Do(act) => act != CloudReply(u)
    case Dispatch(_, callback) => QuietCallback(callback, u)
  }

  lemma {:induction false} TickOnEntry(s: State, now: nat, e: Entry)
    requires Inv(s) && e in s.cache
    ensures var step, t := Dispatch(now, (_, _) => []), DoTick(s, now);
      && (Expires(step, e) ==> !Cached(t.cache, e.msgid))
      && (!Expires(step, e) ==> AgedBy(step, e) in t.cache && WaitsOrGone(t, AgedBy(step, e)))
      && e.msgid < t.nextId
      && Reported(t.ipc, Timeout(e.msgid, e.devid, e.kind))
      == Reported(s.ipc, Timeout(e.msgid, e.devid, e.kind)) + if Expires(step, e) then 1 else 0
  {
    var i :| 0 <= i < |s.cache| && s.cache[i] == e;
    TickEntry(s.cache, now, s.nextId, i);
    TickReports(s.ipc, s.cache, now, s.nextId, e);
  }

  /** What a step does to a waiting request. */
  lemma {:induction false} StepOnEntry(s: State, step: Step, e: Entry)
    requires Inv(s) && e in s.cache
    ensures var t := DoStep(s, step);
      && e.msgid < t.nextId
      && (Expires(step, e) ==> !Cached(t.cache, e.msgid))
      && (!Expires(step, e) ==> WaitsOrGone(t, AgedBy(step, e)))
      && (!Expires(step, e) && Quiet(step, e.msgid) ==> AgedBy(step, e) in t.cache)
      && Reported(t.ipc, Timeout(e.msgid, e.devid, e.kind))
      == Reported(s.ipc, Timeout(e.msgid, e.devid, e.kind)) + if Expires(step, e) then 1 else 0
  {
    match step
    case Do(act) =>
      ActOnEntry(s, act, e);
      ActReportsNoTimeout(s, act, Timeout(e.msgid, e.devid, e.kind));
    case Dispatch(now, callback) =>
      TickOnEntry(s, now, e);
      TickKeepsInv(s, now);
      hide Inv, Cached, Reported, DoTick, Deliver;
      DeliverOnEntry(DoTick(s, now), s.ipc.maxSize, callback, AgedBy(step, e), Timeout(e.msgid, e.devid, e.kind));
  }

  /** No dispatch of the run comes ten seconds or more after the creation of the entry; a clock that goes
      back makes it younger. */
  predicate Outlives(steps: seq<Step>, e: Entry)
    decreases |steps|
  {
    steps == [] || (!Expires(steps[0], e) && Outlives(steps[1..], AgedBy(steps[0], e)))
  }

  function AgedOver(steps: seq<Step>, e: Entry): Entry
    decreases |steps|
  {
    if steps == [] then e else AgedOver(steps[1..], AgedBy(steps[0], e))
  }

  /** With a clock that never goes back behind the creation of the entry, it is a matter of ten seconds. */
  lemma {:induction false} SteadyClock(steps: seq<Step>, e: Entry)
    requires forall i :: 0 <= i < |steps| && steps[i].Dispatch? ==> e.ctime <= steps[i].now
    ensures Outlives(steps, e) <==>
      forall i :: 0 <= i < |steps| && steps[i].Dispatch? ==> steps[i].now < e.ctime + 10000
    ensures AgedOver(steps, e) == e
    decreases |steps|
  {
    if steps != [] {
      SteadyClock(steps[1..], e);
      assert forall i :: 0 < i < |steps| ==> steps[i] == steps[1..][i - 1];
    }
  }

  lemma {:induction false} TickUncaches(todo: seq<Entry>, now: nat, u: nat)
    requires !Cached(todo, u)
    ensures !Cached(TickKept(todo, now), u)
  {
    if todo != [] {
      hide Cached, Expired, Aged;
      CachedSplit(todo, u);
      KeptHead(todo[0], now, TickKept(todo[1..], now), u);
      TickUncaches(todo[1..], now, u);
    }
  }

  lemma {:induction false} StepOnGone(s: State, step: Step, e: Entry)
    requires Inv(s) && e.msgid < s.nextId && !Cached(s.cache, e.msgid)
    ensures var t := DoStep(s, step);
      && e.msgid < t.nextId && !Cached(t.cache, e.msgid)
      && Reported(t.ipc, Timeout(e.msgid, e.devid, e.kind)) == Reported(s.ipc, Timeout(e.msgid, e.devid, e.kind))
  {
    var x := Timeout(e.msgid, e.devid, e.kind);
    match step
    case Do(act) =>
      ActOnEntry(s, act, e);
      ActReportsNoTimeout(s, act, x);
    case Dispatch(now, callback) =>
      var t := DoTick(s, now);
      assert e !in s.cache;
      TickReports(s.ipc, s.cache, now, s.nextId, e);
      TickUncaches(s.cache, now, e.msgid);
      TickKeepsInv(s, now);
      assert t.nextId == s.nextId && WaitsOrGone(t, e);
      hide Inv, Cached, Reported, DoTick, Deliver;
      DeliverOnEntry(t, s.ipc.maxSize, callback, e, x);
  }

  lemma {:induction false} RunOnGone(s: State, steps: seq<Step>, e: Entry)
    requires Inv(s) && e.msgid < s.nextId && !Cached(s.cache, e.msgid)
    ensures var t := Run(s, steps);
      && !Cached(t.cache, e.msgid)
      && Reported(t.ipc, Timeout(e.msgid, e.devid, e.kind)) == Reported(s.ipc, Timeout(e.msgid, e.devid, e.kind))
    decreases |steps|
  {
    if steps != [] {
      StepOnGone(s, steps[0], e);
      StepKeepsInv(s, steps[0]);
      hide Inv, Cached, Reported, DoStep;
      RunOnGone(DoStep(s, steps[0]), steps[1..], e);
    }
  }

  ghost predicate QuietRun(steps: seq<Step>, u: nat) {
    forall i :: 0 <= i < |steps| ==> Quiet(steps[i], u)
  }

  /** Over any run, with any clock: a waiting request is gone once it has expired, and one that nobody replies
      to waits, with its entry as it was, until then, when its timeout is reported once. */
  lemma {:induction false} RunOnEntry(s: State, steps: seq<Step>, e: Entry)
    requires Inv(s) && e in s.cache
    ensures var u, t := e.msgid, Run(s, steps);
      && (!Outlives(steps, e) ==> !Cached(t.cache, u))
      && (QuietRun(steps, u) && Outlives(steps, e) ==> AgedOver(steps, e) in t.cache)
      && (QuietRun(steps, u) ==>
            Reported(t.ipc, Timeout(u, e.devid, e.kind))
            == Reported(s.ipc, Timeout(u, e.devid, e.kind)) + if Outlives(steps, e) then 0 else 1)
    decreases |steps|
  {
    if steps != [] {
      var t, e' := DoStep(s, steps[0]), AgedBy(steps[0], e);
      StepOnEntry(s, steps[0], e);
      StepKeepsInv(s, steps[0]);
      assert QuietRun(steps, e.msgid) ==> Quiet(steps[0], e.msgid) && QuietRun(steps[1..], e.msgid);
      hide Inv, Cached, Reported, DoStep, Quiet, QuietRun, Expires;
      if e' in t.cache && !Expires(steps[0], e) {
        RunOnEntry(t, steps[1..], e');
      } else {
        RunOnGone(t, steps[1..], e);
      }
    }
  }

  lemma {:induction false} ReportedIsOutcome(es: seq<Event>, e: Event, u: nat)
    requires IsOutcome(e, u)
    ensures multiset(es)[e] <= Outcomes(es, u)
  {
    if es != [] {
      var init := es[..|es| - 1];
      assert es == init + [es[|es| - 1]];
      ReportedIsOutcome(init, e, u);
    }
  }

  /** The state after a request that expects its reply has been sent. */
  function Sent(s: State, devid: int, kind: int, now: nat): State { DoAct(s, Request(devid, kind, now, true)) }

  lemma {:induction false} SentIsCached(s: State, devid: int, kind: int, now: nat)
    requires Inv(s) && Conserved(s, s.nextId) && |s.cache| < 50
    ensures var u, t := s.nextId, Sent(s, devid, kind, now);
      && Entry(u, devid, kind, now) in t.cache && Cached(t.cache, u) && u < t.nextId
      && Inv(t) && Conserved(t, u) && Times(t.inserted, u) == 1 && Reported(t.ipc, Timeout(u, devid, kind)) == 0
  {
    var u, act := s.nextId, Request(devid, kind, now, true);
    RequestExactly(s, devid, kind, now, true);
    ActKeepsInv(s, act);
    ActConserves(s, act, u);
    assert Sent(s, devid, kind, now).cache[|s.cache|] == Entry(u, devid, kind, now);
    IsCached(Sent(s, devid, kind, now).cache, |s.cache|);
    ReportedIsOutcome(s.ipc.accepted, Timeout(u, devid, kind), u);
    ReportedIsOutcome(s.ipc.refused, Timeout(u, devid, kind), u);
    hide Times, Outcomes, Cached;
  }

  /** What happens to a waiting request that has been inserted once. */
  lemma {:induction false} WaitingTimesOut(s: State, steps: seq<Step>, e: Entry)
    requires Inv(s) && e in s.cache && e.msgid < s.nextId && Conserved(s, e.msgid) && Times(s.inserted, e.msgid) == 1
    ensures var u, t := e.msgid, Run(s, steps);
      && (!Outlives(steps, e) ==> !Cached(t.cache, u) && (u > 0 ==> Resolved(t.ipc, u) == 1))
      && (QuietRun(steps, u) ==> (Cached(t.cache, u) <==> Outlives(steps, e)))
  {
    hide Run, Inv, Cached, Resolved, Reported, Times, Outlives, QuietRun, AgedOver;
    var u, t := e.msgid, Run(s, steps);
    RunOnEntry(s, steps, e);
    RunSettles(s, steps, u);
    RunConserves(s, steps, u);
    if AgedOver(steps, e) in t.cache {
      AgedKeepsId(steps, e);
      EntryIsCached(t, AgedOver(steps, e));
    }
  }

  lemma InitialIsOk(maxSize: nat)
    ensures Inv(Initial(maxSize))
  {
  }

  /** In any run from start-up, a request sent with fewer than 50 others cached has exactly one outcome once a
      dispatch has come ten seconds after it or later, and its entry is gone; unless its id is the 0 that
      replies are not reported for. If nobody replies to it, it waits until then and no longer, and the
      outcome is its own timeout. */
  lemma {:induction false} RequestTimesOut(maxSize: nat, before: seq<Step>, devid: int, kind: int, now: nat,
                                           steps: seq<Step>)
    requires |Run(Initial(maxSize), before).cache| < 50
    ensures var s := Run(Initial(maxSize), before);
      var u, t := s.nextId, Run(Sent(s, devid, kind, now), steps);
      var lives := Outlives(steps, Entry(u, devid, kind, now));
      && (!lives ==> !Cached(t.cache, u) && (u > 0 ==> Resolved(t.ipc, u) == 1))
      && (QuietRun(steps, u) ==>
            && (Cached(t.cache, u) <==> lives)
            && Reported(t.ipc, Timeout(u, devid, kind)) == if lives then 0 else 1)
  {
    hide Inv, Cached, Resolved, Reported, Times, Sent, Outlives, QuietRun, AgedOver, Conserved;
    var init := Initial(maxSize);
    InitialIsOk(maxSize);
    var s := Run(init, before);
    var e := Entry(s.nextId, devid, kind, now);
    AtMostOneOutcome(maxSize, before, s.nextId);
    RunKeepsInv(init, before);
    SentIsCached(s, devid, kind, now);
    WaitingTimesOut(Sent(s, devid, kind, now), steps, e);
    RunOnEntry(Sent(s, devid, kind, now), steps, e);
  }

  lemma {:induction false} AgedKeepsId(steps: seq<Step>, e: Entry)
    ensures AgedOver(steps, e).msgid == e.msgid
    decreases |steps|
  {
    if steps != [] {
      AgedKeepsId(steps[1..], AgedBy(steps[0], e));
    }
  }

  lemma {:induction false} EntryIsCached(s: State, e: Entry)
    requires e in s.cache
    ensures Cached(s.cache, e.msgid)
  {
    var k :| 0 <= k < |s.cache| && s.cache[k] == e;
    IsCached(s.cache, k);
  }

  // ---------------------------------------------------------------- one dispatch

  /** A callback that posts one event whenever it is called: the number of turns the dispatch has left. */
  function Echo(left: nat, e: Event): seq<Act> { [Post(left)] }

  lemma {:induction false} EchoTurns(s: State, left: nat)
    requires Inv(s) && |s.ipc.queue| == 1 && 0 < s.ipc.maxSize
    ensures var t := Deliver(s, left, Echo);
      && |t.ipc.delivered| == |s.ipc.delivered| + left
      && (left > 0 ==> s.ipc.delivered + s.ipc.queue <= t.ipc.delivered && t.ipc.queue == [Other(1)])
      && t.ipc.refused == s.ipc.refused && t.cache == s.cache
    decreases left
  {
    if left > 0 {
      var n := Next(s);
      var t := DoAct(n, Post(left));
      NextKeepsInv(s);
      PostExactly(n, left);
      ActKeepsInv(n, Post(left));
      assert [Post(left)][1..] == [] && DoActs(n, [Post(left)]) == t;
      assert s.ipc.queue == [s.ipc.queue[0]];
      assert t.ipc.queue == [Other(left)] && t.ipc.delivered == s.ipc.delivered + s.ipc.queue;
      hide Inv, DoAct, DoActs, Next;
      EchoTurns(t, left - 1);
    }
  }

  /** A dispatch ticks first, delivers the timeouts of this tick, runs the callback on every event, and leaves
      what that posts too late for the next dispatch. */
  lemma {:induction false} DispatchCallsBack(s: State, e: Entry, now: nat)
    requires Inv(s) && s.cache == [e] && s.ipc.queue == [] && 0 < s.ipc.maxSize && e.ctime + 10000 <= now
    ensures var t := DoStep(s, Dispatch(now, Echo));
      && t.cache == [] && t.ipc.queue == [Other(1)] && t.ipc.refused == s.ipc.refused
      && s.ipc.delivered + [Timeout(e.msgid, e.devid, e.kind)] <= t.ipc.delivered
      && |t.ipc.delivered| == |s.ipc.delivered| + s.ipc.maxSize
  {
    TickKeepsInv(s, now);
    assert [e][1..] == [] && TickKept([], now) == [] && TickKept([e], now) == [];
    assert TickIpc(s.ipc, [e], now) == Send(s.ipc, Timeout(e.msgid, e.devid, e.kind));
    var t := DoTick(s, now);
    assert t.ipc.queue == [Timeout(e.msgid, e.devid, e.kind)];
    assert t.cache == [] && t.ipc.delivered == s.ipc.delivered && t.ipc.refused == s.ipc.refused;
    hide DoTick, Inv, Deliver;
    EchoTurns(t, s.ipc.maxSize);
  }
}
