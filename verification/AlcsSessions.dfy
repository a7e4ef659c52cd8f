/** The server sessions of alcs_server.c: created by authentication, refreshed by heartbeats, removed by
    a timer, and asked for by every secure request. A key stands for the checksum of a product key and
    a device name, as strncmp compares it. */
module AlcsSessions {
  import opened Machine

  const FIRST_SEED := 0xff
  const HEART_EXPIRE := 120000

  datatype Address = Address(host: string, port: u16)

  type checksum = string

  datatype Session = Session(id: nat, addr: Address, key: checksum, authedTime: nat, heartTime: nat)

  datatype Event =
    | Opened(id: nat, addr: Address, key: checksum)
    | Called(id: nat, addr: Address, key: checksum)
    | Unauthorized(addr: Address)
    | Removed(id: nat)

  /** `log` records the past. */
  datatype State = State(sessions: seq<Session>, seed: nat, log: seq<Event>)

  const INITIAL := State([], FIRST_SEED, [])

  // ---------------------------------------------------------------- steps

  predicate Matches(x: Session, addr: Address, key: checksum) { x.addr == addr && x.key == key }

  /** get_session_by_checksum */
  function FirstMatch(sessions: seq<Session>, addr: Address, key: checksum): (i: nat)
    ensures i <= |sessions|
    ensures i < |sessions| ==> Matches(sessions[i], addr, key)
    ensures forall j :: 0 <= j < i ==> !Matches(sessions[j], addr, key)
  {
    if sessions == [] || Matches(sessions[0], addr, key) then 0 else 1 + FirstMatch(sessions[1..], addr, key)
  }

  /** alcs_rec_auth once the signature and the names have been accepted */
  function DoAuth(s: State, addr: Address, key: checksum, now: nat): State {
    var i := FirstMatch(s.sessions, addr, key);
    if i < |s.sessions| then
      s.(sessions := s.sessions[i := s.sessions[i].(authedTime := now, heartTime := now)])
    else
      State(s.sessions + [Session(s.seed + 1, addr, key, now, now)], s.seed + 1,
            s.log + [Opened(s.seed + 1, addr, key)])
  }

  predicate Beats(x: Session, addr: Address) { x.id != 0 && x.addr == addr }

  /** alcs_rec_heart_beat refreshes every session of the address. */
  function Refreshed(x: Session, addr: Address, now: nat): Session {
    if Beats(x, addr) then x.(heartTime := now) else x
  }

  function Refresh(sessions: seq<Session>, addr: Address, now: nat): (r: seq<Session>)
    ensures |r| == |sessions|
    ensures forall i :: 0 <= i < |r| ==> r[i] == Refreshed(sessions[i], addr, now)
  {
    if sessions == [] then [] else [Refreshed(sessions[0], addr, now)] + Refresh(sessions[1..], addr, now)
  }

  predicate Stale(x: Session, now: nat) { x.id != 0 && x.heartTime + HEART_EXPIRE < now }

  function Fresh(sessions: seq<Session>, now: nat): seq<Session> {
    if sessions == [] then [] else (if Stale(sessions[0], now) then [] else [sessions[0]]) + Fresh(sessions[1..], now)
  }

  function Removals(sessions: seq<Session>, now: nat): seq<Event> {
    if sessions == [] then [] else
    (if Stale(sessions[0], now) then [Removed(sessions[0].id)] else []) + Removals(sessions[1..], now)
  }

  /** on_svr_auth_timer */
  function DoTimer(s: State, now: nat): State {
    s.(sessions := Fresh(s.sessions, now), log := s.log + Removals(s.sessions, now))
  }

  /** recv_msg_handler, where `resource` is the key of the resource the path names, if any, and `id` the
      session option of the request, zero if there is none. */
  function DoRequest(s: State, resource: Option<checksum>, addr: Address, id: nat): State {
    match resource
    case None => s
    case Some(key) =>
      var i := FirstMatch(s.sessions, addr, key);
      if i == |s.sessions| || s.sessions[i].id != id then s.(log := s.log + [Unauthorized(addr)])
      else s.(log := s.log + [Called(id, addr, key)])
  }

  datatype Step =
    | Auth(addr: Address, key: checksum, now: nat)
    | Heartbeat(addr: Address, now: nat)
    | Timer(now: nat)
    | Request(resource: Option<checksum>, addr: Address, id: nat)

  function DoStep(s: State, step: Step): State {
    match step
    case Auth(addr, key, now) => DoAuth(s, addr, key, now)
    case Heartbeat(addr, now) => s.(sessions := Refresh(s.sessions, addr, now))
    case Timer(now) => DoTimer(s, now)
    case Request(resource, addr, id) => DoRequest(s, resource, addr, id)
  }

  function Run(s: State, steps: seq<Step>): State
    decreases |steps|
  {
    if steps == [] then s else Run(DoStep(s, steps[0]), steps[1..])
  }

  // ---------------------------------------------------------------- the session table

  /** Ids are positive, strictly increasing and issued by the seed; one session per address and key. */
  predicate TableOk(sessions: seq<Session>, seed: nat) {
    && (forall i :: 0 <= i < |sessions| ==> FIRST_SEED < sessions[i].id <= seed)
    && (forall i, j :: 0 <= i < j < |sessions| ==> sessions[i].id < sessions[j].id)
    && (forall i, j :: 0 <= i < j < |sessions| ==> !Matches(sessions[j], sessions[i].addr, sessions[i].key))
  }

  lemma {:induction false} AuthKeepsTable(s: State, addr: Address, key: checksum, now: nat)
    requires TableOk(s.sessions, s.seed) && FIRST_SEED <= s.seed
    ensures var t := DoAuth(s, addr, key, now); TableOk(t.sessions, t.seed) && s.seed <= t.seed
  {
    var i := FirstMatch(s.sessions, addr, key);
    if i < |s.sessions| {
      hide TableOk;
      SameTable(s.sessions, DoAuth(s, addr, key, now).sessions, s.seed);
    } else {
      var x := Session(s.seed + 1, addr, key, now, now);
      assert forall k :: 0 <= k < |s.sessions| ==> !Matches(s.sessions[k], addr, key);
      hide FirstMatch;
      AppendKeepsTable(s.sessions, s.seed, x);
    }
  }

  lemma {:induction false} AppendKeepsTable(sessions: seq<Session>, seed: nat, x: Session)
    requires TableOk(sessions, seed) && FIRST_SEED <= seed && x.id == seed + 1
    requires forall k :: 0 <= k < |sessions| ==> !Matches(sessions[k], x.addr, x.key)
    ensures TableOk(sessions + [x], seed + 1)
  {
    var r := sessions + [x];
    forall i, j | 0 <= i < j < |r| ensures r[i].id < r[j].id && !Matches(r[j], r[i].addr, r[i].key) {
      assert r[i] == sessions[i];
    }
  }

  lemma {:induction false} FreshIsSubset(sessions: seq<Session>, seed: nat, now: nat)
    requires TableOk(sessions, seed)
    ensures TableOk(Fresh(sessions, now), seed)
    ensures forall x :: x in Fresh(sessions, now) <==> x in sessions && !Stale(x, now)
  {
    if sessions != [] {
      var rest := sessions[1..];
      assert sessions == [sessions[0]] + rest;
      TailKeepsTable(sessions, seed);
      FreshIsSubset(rest, seed, now);
      var kept := Fresh(rest, now);
      assert Fresh(sessions, now) == (if Stale(sessions[0], now) then [] else [sessions[0]]) + kept;
      hide Stale, TableOk, Fresh;
      PrependKeepsTable(sessions[0], rest, kept, seed);
      assert [] + kept == kept;
    }
  }

  lemma TailKeepsTable(sessions: seq<Session>, seed: nat)
    requires TableOk(sessions, seed) && sessions != []
    ensures TableOk(sessions[1..], seed)
  {
  }

  lemma {:induction false} PrependKeepsTable(x: Session, rest: seq<Session>, kept: seq<Session>, seed: nat)
    requires TableOk([x] + rest, seed) && TableOk(kept, seed) && forall y :: y in kept ==> y in rest
    ensures TableOk([x] + kept, seed)
  {
    assert ([x] + rest)[0] == x;
    forall k | 0 <= k < |kept| ensures x.id < kept[k].id && !Matches(kept[k], x.addr, x.key) {
      assert kept[k] in rest;
      var m :| 0 <= m < |rest| && rest[m] == kept[k];
      assert ([x] + rest)[m + 1] == rest[m];
    }
  }

  /** The timer removes exactly the sessions whose last authentication or heartbeat is too old. */
  lemma {:induction false} TimerIsExact(s: State, now: nat, x: Session)
    requires TableOk(s.sessions, s.seed)
    ensures x in DoTimer(s, now).sessions <==> x in s.sessions && now <= x.heartTime + HEART_EXPIRE
  {
    FreshIsSubset(s.sessions, s.seed, now);
    if x in s.sessions {
      var i :| 0 <= i < |s.sessions| && s.sessions[i] == x;
      assert x.id != 0;
    }
    hide Fresh;
  }

  predicate Known(sessions: seq<Session>, addr: Address, key: checksum, id: nat) {
    exists i :: 0 <= i < |sessions| && Matches(sessions[i], addr, key) && sessions[i].id == id
  }

  /** A request reaches a callback if and only if the session of its sender and resource has its id. */
  lemma {:induction false} RequestIsHonouredIff(s: State, key: checksum, addr: Address, id: nat)
    requires TableOk(s.sessions, s.seed)
    ensures DoRequest(s, Some(key), addr, id).log
         == s.log + [if Known(s.sessions, addr, key, id) then Called(id, addr, key) else Unauthorized(addr)]
    ensures DoRequest(s, Some(key), addr, id).sessions == s.sessions
    ensures DoRequest(s, None, addr, id) == s
  {
    var i := FirstMatch(s.sessions, addr, key);
    if Known(s.sessions, addr, key, id) {
      var k :| 0 <= k < |s.sessions| && Matches(s.sessions[k], addr, key) && s.sessions[k].id == id;
      assert k == i;
    }
  }

  // ---------------------------------------------------------------- stale ids

  ghost predicate OpenedWithout(log: seq<Event>, id: nat, addr: Address, key: checksum) {
    Opened(id, addr, key) in log && Removed(id) !in log
  }

  /** Every call in the log was made in the session that its id names, after that session was opened
      for the same peer and before it was removed. */
  ghost predicate CallsOk(log: seq<Event>) {
    forall j :: 0 <= j < |log| && log[j].Called? ==> OpenedWithout(log[..j], log[j].id, log[j].addr, log[j].key)
  }

  /** Live sessions are the ones opened and not removed; ids that have not been issued are not in the log. */
  ghost predicate Inv(s: State) {
    && FIRST_SEED <= s.seed && TableOk(s.sessions, s.seed)
    && (forall i :: 0 <= i < |s.sessions| ==>
          OpenedWithout(s.log, s.sessions[i].id, s.sessions[i].addr, s.sessions[i].key))
    && (forall e :: e in s.log && (e.Opened? || e.Removed?) ==> FIRST_SEED < e.id <= s.seed)
    && CallsOk(s.log)
  }

  lemma {:induction false} CallsAppend(log: seq<Event>, e: Event)
    requires CallsOk(log) && (e.Called? ==> OpenedWithout(log, e.id, e.addr, e.key))
    ensures CallsOk(log + [e])
  {
    var longer := log + [e];
    hide OpenedWithout;
    forall j | 0 <= j < |longer| && longer[j].Called?
      ensures OpenedWithout(longer[..j], longer[j].id, longer[j].addr, longer[j].key)
    {
      if j < |log| {
        assert longer[..j] == log[..j];
      } else {
        assert longer[..j] == log;
      }
    }
  }

  lemma {:induction false} AuthKeepsInv(s: State, addr: Address, key: checksum, now: nat)
    requires Inv(s)
    ensures Inv(DoAuth(s, addr, key, now))
  {
    AuthKeepsTable(s, addr, key, now);
    CallsAppend(s.log, Opened(s.seed + 1, addr, key));
    hide CallsOk, TableOk;
  }

  lemma {:induction false} RemovalsKeepCalls(log: seq<Event>, sessions: seq<Session>, now: nat)
    requires CallsOk(log)
    ensures CallsOk(log + Removals(sessions, now))
    ensures forall e :: e in Removals(sessions, now) ==> e.Removed?
    decreases |sessions|
  {
    if sessions == [] {
      assert log + [] == log;
    } else {
      var first := if Stale(sessions[0], now) then [Removed(sessions[0].id)] else [];
      if Stale(sessions[0], now) {
        CallsAppend(log, Removed(sessions[0].id));
      } else {
        assert log + first == log;
      }
      RemovalsKeepCalls(log + first, sessions[1..], now);
      assert log + (first + Removals(sessions[1..], now)) == (log + first) + Removals(sessions[1..], now);
      hide CallsOk, Stale;
    }
  }

  lemma {:induction false} RemovalsAre(sessions: seq<Session>, now: nat, id: nat)
    ensures Removed(id) in Removals(sessions, now)
       <==> exists i :: 0 <= i < |sessions| && Stale(sessions[i], now) && sessions[i].id == id
    decreases |sessions|
  {
    if sessions != [] {
      var rest := sessions[1..];
      RemovalsAre(rest, now, id);
      if Removed(id) in Removals(rest, now) {
        var i :| 0 <= i < |rest| && Stale(rest[i], now) && rest[i].id == id;
        assert sessions[i + 1] == rest[i];
      }
      if i :| 0 < i < |sessions| && Stale(sessions[i], now) && sessions[i].id == id {
        assert rest[i - 1] == sessions[i];
      }
      hide Stale;
    }
  }

  lemma {:induction false} TimerKeepsInv(s: State, now: nat)
    requires Inv(s)
    ensures Inv(DoTimer(s, now))
  {
    var t := DoTimer(s, now);
    FreshIsSubset(s.sessions, s.seed, now);
    RemovalsKeepCalls(s.log, s.sessions, now);
    forall i | 0 <= i < |t.sessions|
      ensures OpenedWithout(t.log, t.sessions[i].id, t.sessions[i].addr, t.sessions[i].key)
    {
      assert t.sessions[i] in t.sessions;
      LiveIsNotRemoved(s, now, t.sessions[i]);
    }
    forall e | e in t.log && (e.Opened? || e.Removed?) ensures FIRST_SEED < e.id <= s.seed {
      if e !in s.log {
        RemovalsAre(s.sessions, now, e.id);
      }
    }
    hide CallsOk, TableOk;
  }

  lemma {:induction false} LiveIsNotRemoved(s: State, now: nat, x: Session)
    requires Inv(s) && x in s.sessions && !Stale(x, now)
    ensures OpenedWithout(DoTimer(s, now).log, x.id, x.addr, x.key)
  {
    RemovalsAre(s.sessions, now, x.id);
    var k :| 0 <= k < |s.sessions| && s.sessions[k] == x;
    hide Removals, CallsOk, Stale;
    if i :| 0 <= i < |s.sessions| && Stale(s.sessions[i], now) && s.sessions[i].id == x.id {
      assert false;
    }
  }

  lemma {:induction false} HeartbeatKeepsInv(s: State, addr: Address, now: nat)
    requires Inv(s)
    ensures Inv(s.(sessions := Refresh(s.sessions, addr, now)))
  {
    RefreshKeepsTable(s.sessions, s.seed, addr, now);
    hide CallsOk, OpenedWithout, TableOk, Beats;
  }

  lemma {:induction false} RefreshKeepsTable(sessions: seq<Session>, seed: nat, addr: Address, now: nat)
    requires TableOk(sessions, seed)
    ensures TableOk(Refresh(sessions, addr, now), seed)
  {
    hide TableOk, Matches;
    SameTable(sessions, Refresh(sessions, addr, now), seed);
  }

  lemma {:induction false} SameTable(a: seq<Session>, b: seq<Session>, seed: nat)
    requires TableOk(a, seed) && |a| == |b|
    requires forall i :: 0 <= i < |a| ==> a[i].id == b[i].id && a[i].addr == b[i].addr && a[i].key == b[i].key
    ensures TableOk(b, seed)
  {
    forall i, j | 0 <= i < j < |b| ensures b[i].id < b[j].id && !Matches(b[j], b[i].addr, b[i].key) {
      assert a[i].id < a[j].id && !Matches(a[j], a[i].addr, a[i].key);
    }
  }

  lemma {:induction false} RequestKeepsInv(s: State, resource: Option<checksum>, addr: Address, id: nat)
    requires Inv(s)
    ensures Inv(DoRequest(s, resource, addr, id))
  {
    if resource.Some? {
      var i := FirstMatch(s.sessions, addr, resource.value);
      if i == |s.sessions| || s.sessions[i].id != id {
        CallsAppend(s.log, Unauthorized(addr));
      } else {
        CallsAppend(s.log, Called(id, addr, resource.value));
      }
      hide CallsOk, TableOk;
    }
  }

  /** In every reachable state every call so far was made by the peer that opened the session, after it
      was opened and before it was removed. */
  lemma {:induction false} RunKeepsInv(s: State, steps: seq<Step>)
    requires Inv(s)
    ensures Inv(Run(s, steps))
    decreases |steps|
  {
    if steps != [] {
      match steps[0] {
        case Auth(addr, key, now) => AuthKeepsInv(s, addr, key, now);
        case Heartbeat(addr, now) => HeartbeatKeepsInv(s, addr, now);
        case Timer(now) => TimerKeepsInv(s, now);
        case Request(resource, addr, id) => RequestKeepsInv(s, resource, addr, id);
      }
      hide Inv;
      RunKeepsInv(DoStep(s, steps[0]), steps[1..]);
    }
  }

  /** The calls that a run makes under the id of a session. */
  ghost predicate NoCallSince(before: seq<Event>, after: seq<Event>, id: nat) {
    before <= after && forall k :: |before| <= k < |after| && after[k].Called? ==> after[k].id != id
  }

  predicate Absent(s: State, id: nat) {
    id <= s.seed && forall i :: 0 <= i < |s.sessions| ==> s.sessions[i].id != id
  }

  lemma {:induction false} StepKeepsAbsent(s: State, step: Step, id: nat)
    requires Absent(s, id) && TableOk(s.sessions, s.seed)
    ensures Absent(DoStep(s, step), id) && NoCallSince(s.log, DoStep(s, step).log, id)
  {
    match step
    case Timer(now) =>
      FreshIsSubset(s.sessions, s.seed, now);
      assert CallsOk([]);
      RemovalsKeepCalls([], s.sessions, now);
      AbsentStays(s.sessions, Fresh(s.sessions, now), id);
      AppendsNoCall(s.log, Removals(s.sessions, now), id);
    case _ =>
  }

  lemma {:induction false} AbsentStays(sessions: seq<Session>, kept: seq<Session>, id: nat)
    requires forall i :: 0 <= i < |sessions| ==> sessions[i].id != id
    requires forall x :: x in kept ==> x in sessions
    ensures forall i :: 0 <= i < |kept| ==> kept[i].id != id
  {
    forall i | 0 <= i < |kept| ensures kept[i].id != id {
      assert kept[i] in sessions;
    }
  }

  lemma {:induction false} AppendsNoCall(log: seq<Event>, more: seq<Event>, id: nat)
    requires forall e :: e in more ==> e.Removed?
    ensures NoCallSince(log, log + more, id)
  {
    forall k | |log| <= k < |log + more| ensures (log + more)[k].Removed? {
      assert (log + more)[k] in more;
    }
  }

  /** An id that has been issued and is no longer in the table is never honoured again, in any run. */
  lemma {:induction false} StaleIdIsNeverHonoured(s: State, steps: seq<Step>, id: nat)
    requires Inv(s) && Absent(s, id)
    ensures Absent(Run(s, steps), id) && NoCallSince(s.log, Run(s, steps).log, id)
    decreases |steps|
  {
    if steps != [] {
      var t := DoStep(s, steps[0]);
      StepKeepsAbsent(s, steps[0], id);
      RunKeepsInv(s, steps[..1]);
      assert Run(s, steps[..1]) == t;
      hide DoStep, Inv, Absent;
      StaleIdIsNeverHonoured(t, steps[1..], id);
    }
  }

  lemma {:induction false} RunAppend(s: State, before: seq<Step>, after: seq<Step>)
    ensures Run(s, before + after) == Run(Run(s, before), after)
    decreases |before|
  {
    if before == [] {
      assert before + after == after;
    } else {
      assert (before + after)[1..] == before[1..] + after;
      RunAppend(DoStep(s, before[0]), before[1..], after);
    }
  }

  lemma StartsInv()
    ensures Inv(INITIAL)
  {
  }

  /** From start-up: once the log says that a session has been removed, no call is ever logged under its
      id, however the run goes on. */
  lemma {:induction false} RemovedIdIsNeverHonoured(before: seq<Step>, after: seq<Step>, id: nat)
    requires Removed(id) in Run(INITIAL, before).log
    ensures Inv(Run(INITIAL, before)) && Absent(Run(INITIAL, before), id)
    ensures NoCallSince(Run(INITIAL, before).log, Run(INITIAL, before + after).log, id)
  {
    var s := Run(INITIAL, before);
    StartsInv();
    RunKeepsInv(INITIAL, before);
    RemovedIsAbsent(s, id);
    RunAppend(INITIAL, before, after);
    hide Run, Inv, Absent;
    StaleIdIsNeverHonoured(s, after, id);
  }

  lemma {:induction false} RemovedIsAbsent(s: State, id: nat)
    requires Inv(s) && Removed(id) in s.log
    ensures Absent(s, id)
  {
    hide CallsOk, TableOk;
    assert Removed(id).Removed?;
    forall i | 0 <= i < |s.sessions| ensures s.sessions[i].id != id {
      assert OpenedWithout(s.log, s.sessions[i].id, s.sessions[i].addr, s.sessions[i].key);
    }
  }

  /** The timers of a run come in time for a heartbeat at `since`, and its clock does not go back. */
  predicate InTime(steps: seq<Step>, since: nat) {
    forall k :: 0 <= k < |steps| ==>
      match steps[k]
      case Auth(_, _, now) => since <= now
      case Heartbeat(_, now) => since <= now
      case Timer(now) => now <= since + HEART_EXPIRE
      case Request(_, _, _) => true
  }

  predicate Alive(s: State, addr: Address, key: checksum, id: nat, since: nat) {
    exists i :: 0 <= i < |s.sessions| && Lives(s.sessions[i], addr, key, id, since)
  }

  predicate Lives(x: Session, addr: Address, key: checksum, id: nat, since: nat) {
    Matches(x, addr, key) && x.id == id && since <= x.heartTime
  }

  lemma {:induction false} StepKeepsAlive(s: State, step: Step, addr: Address, key: checksum, id: nat, since: nat)
    requires TableOk(s.sessions, s.seed) && Alive(s, addr, key, id, since) && InTime([step], since)
    ensures Alive(DoStep(s, step), addr, key, id, since)
  {
    var i :| 0 <= i < |s.sessions| && Lives(s.sessions[i], addr, key, id, since);
    var t := DoStep(s, step);
    assert [step][0] == step;
    match step
    case Timer(now) =>
      TimerIsExact(s, now, s.sessions[i]);
      var j :| 0 <= j < |t.sessions| && t.sessions[j] == s.sessions[i];
      assert Lives(t.sessions[j], addr, key, id, since);
    case Auth(a, k, now) =>
      hide TableOk;
      assert Lives(t.sessions[i], addr, key, id, since);
    case _ =>
      hide TableOk, FirstMatch;
      assert Lives(t.sessions[i], addr, key, id, since);
  }

  /** A session lives on, under the same id, as long as every timer finds its last heartbeat recent. */
  lemma {:induction false} SessionSurvives(s: State, steps: seq<Step>, addr: Address, key: checksum, id: nat,
                                           since: nat)
    requires Inv(s) && Alive(s, addr, key, id, since) && InTime(steps, since)
    ensures Alive(Run(s, steps), addr, key, id, since)
    decreases |steps|
  {
    if steps != [] {
      assert InTime([steps[0]], since) && InTime(steps[1..], since);
      StepKeepsAlive(s, steps[0], addr, key, id, since);
      RunKeepsInv(s, steps[..1]);
      assert Run(s, steps[..1]) == DoStep(s, steps[0]);
      hide DoStep, Inv, Alive, InTime;
      SessionSurvives(DoStep(s, steps[0]), steps[1..], addr, key, id, since);
    }
  }
}
