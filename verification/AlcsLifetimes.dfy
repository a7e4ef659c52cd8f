/** How long a session of the ALCS server lives: what one step does to one session, and over any run the
    exact condition under which it is still there. */
module AlcsLifetimes {
  import opened Machine
  import opened AlcsSessions

  // ---------------------------------------------------------------- one step

  /** What a step makes of a session: an authentication of its peer sets both times, a heartbeat from its
      address the second, and the timer ends it 120 seconds after that. */
  function Fate(step: Step, x: Session): Option<Session> {
    match step
    case Auth(addr, key, now) =>
      Some(if addr == x.addr && key == x.key then Session(x.id, x.addr, x.key, now, now) else x)
    case Heartbeat(addr, now) =>
      Some(if addr == x.addr then Session(x.id, x.addr, x.key, x.authedTime, now) else x)
    case Timer(now) => if x.heartTime + 120000 < now then None else Some(x)
    case Request(_, _, _) => Some(x)
  }

  /** The address has no session of this name: the next one opens, under the next id, and the others stay. */
  lemma {:induction false} AuthOpens(s: State, addr: Address, key: checksum, now: nat)
    requires forall x :: x in s.sessions ==> x.addr != addr || x.key != key
    ensures DoAuth(s, addr, key, now)
         == State(s.sessions + [Session(s.seed + 1, addr, key, now, now)], s.seed + 1,
                  s.log + [Opened(s.seed + 1, addr, key)])
  {
    assert forall i :: 0 <= i < |s.sessions| ==> s.sessions[i] in s.sessions;
  }

  /** It has one: no other opens, and this one keeps its id. */
  lemma {:induction false} AuthRenews(s: State, addr: Address, key: checksum, now: nat, x: Session)
    requires TableOk(s.sessions, s.seed) && x in s.sessions && x.addr == addr && x.key == key
    ensures var t := DoAuth(s, addr, key, now);
      && t.seed == s.seed && t.log == s.log && |t.sessions| == |s.sessions|
      && Session(x.id, addr, key, now, now) in t.sessions
  {
    var i := FirstMatch(s.sessions, addr, key);
    var k :| 0 <= k < |s.sessions| && s.sessions[k] == x;
    assert i == k;
    assert DoAuth(s, addr, key, now).sessions[i] == Session(x.id, addr, key, now, now);
  }

  /** The first session after start-up has the id 256. */
  lemma {:induction false} FirstSession(addr: Address, key: checksum, now: nat)
    ensures DoAuth(INITIAL, addr, key, now)
         == State([Session(256, addr, key, now, now)], 256, [Opened(256, addr, key)])
  {
    AuthOpens(INITIAL, addr, key, now);
  }

  lemma {:induction false} AuthOnSession(s: State, addr: Address, key: checksum, now: nat, x: Session)
    requires TableOk(s.sessions, s.seed) && x in s.sessions
    ensures Fate(Auth(addr, key, now), x).value in DoAuth(s, addr, key, now).sessions
  {
    if x.addr == addr && x.key == key {
      AuthRenews(s, addr, key, now, x);
    } else {
      var k :| 0 <= k < |s.sessions| && s.sessions[k] == x;
      assert DoAuth(s, addr, key, now).sessions[k] == x;
    }
  }

  lemma {:induction false} HeartbeatOnSession(s: State, addr: Address, now: nat, x: Session)
    requires TableOk(s.sessions, s.seed) && x in s.sessions
    ensures Fate(Heartbeat(addr, now), x).value in Refresh(s.sessions, addr, now)
  {
    var k :| 0 <= k < |s.sessions| && s.sessions[k] == x;
    hide Refresh;
    assert x.id != 0;
    assert Refresh(s.sessions, addr, now)[k] == Fate(Heartbeat(addr, now), x).value;
  }

  lemma {:induction false} TimerOnSession(s: State, now: nat, x: Session)
    requires TableOk(s.sessions, s.seed) && x in s.sessions
    ensures x in DoTimer(s, now).sessions <==> now <= x.heartTime + 120000
    ensures now > x.heartTime + 120000 ==> Absent(DoTimer(s, now), x.id)
    ensures Removed(x.id) in Removals(s.sessions, now) <==> now > x.heartTime + 120000
  {
    TimerIsExact(s, now, x);
    RemovalsAre(s.sessions, now, x.id);
    FreshIsSubset(s.sessions, s.seed, now);
    var k :| 0 <= k < |s.sessions| && s.sessions[k] == x;
    hide Fresh, Removals;
    var t := DoTimer(s, now);
    forall i | 0 <= i < |t.sessions| && t.sessions[i].id == x.id ensures t.sessions[i] == x {
      assert t.sessions[i] in s.sessions;
      OneById(s.sessions, s.seed, t.sessions[i], x);
    }
    forall y | y in s.sessions && y.id == x.id ensures y == x {
      OneById(s.sessions, s.seed, y, x);
    }
  }

  lemma {:induction false} OneById(sessions: seq<Session>, seed: nat, x: Session, y: Session)
    requires TableOk(sessions, seed) && x in sessions && y in sessions && x.id == y.id
    ensures x == y
  {
    var i :| 0 <= i < |sessions| && sessions[i] == x;
    var j :| 0 <= j < |sessions| && sessions[j] == y;
    hide Matches;
    assert i == j;
  }

  /** Every step does to every session just what Fate says; one that is removed is gone under its id. */
  lemma {:induction false} StepOnSession(s: State, step: Step, x: Session)
    requires TableOk(s.sessions, s.seed) && x in s.sessions
    ensures match Fate(step, x)
      case Some(y) => y in DoStep(s, step).sessions
      case None => Absent(DoStep(s, step), x.id)
  {
    hide TableOk, DoAuth, Refresh, DoTimer, Absent;
    match step
    case Auth(addr, key, now) => AuthOnSession(s, addr, key, now, x);
    case Heartbeat(addr, now) => HeartbeatOnSession(s, addr, now, x);
    case Timer(now) => TimerOnSession(s, now, x);
    case Request(_, _, _) =>
  }

  /** A heartbeat renews every session of its address. */
  lemma {:induction false} HeartbeatRenews(s: State, addr: Address, key: checksum, id: nat, since: nat, now: nat)
    requires TableOk(s.sessions, s.seed) && Alive(s, addr, key, id, since)
    ensures Alive(DoStep(s, Heartbeat(addr, now)), addr, key, id, now)
  {
    var i :| 0 <= i < |s.sessions| && Lives(s.sessions[i], addr, key, id, since);
    HeartbeatOnSession(s, addr, now, s.sessions[i]);
    var y := Fate(Heartbeat(addr, now), s.sessions[i]).value;
    hide Refresh, TableOk;
    var k :| 0 <= k < |DoStep(s, Heartbeat(addr, now)).sessions| && DoStep(s, Heartbeat(addr, now)).sessions[k] == y;
    assert Lives(y, addr, key, id, now);
  }

  // ---------------------------------------------------------------- any run

  function FateOver(steps: seq<Step>, x: Session): Option<Session> {
    if steps == [] then Some(x) else
    match FateOver(steps[..|steps| - 1], x)
    case None => None
    case Some(y) => Fate(steps[|steps| - 1], y)
  }

  /** The last time at which a session that was there all along was authenticated or heard of. */
  function LastBeat(steps: seq<Step>, x: Session): nat {
    if steps == [] then x.heartTime else
    var before, last := LastBeat(steps[..|steps| - 1], x), steps[|steps| - 1];
    match last
    case Auth(addr, key, now) => if addr == x.addr && key == x.key then now else before
    case Heartbeat(addr, now) => if addr == x.addr then now else before
    case Timer(_) => before
    case Request(_, _, _) => before
  }

  /** Every timer comes within 120 seconds of the last authentication or heartbeat before it. */
  predicate KeptAlive(steps: seq<Step>, x: Session) {
    forall k :: 0 <= k < |steps| && steps[k].Timer? ==> steps[k].now <= LastBeat(steps[..k], x) + 120000
  }

  lemma {:induction false} FateOverIff(steps: seq<Step>, x: Session)
    ensures FateOver(steps, x).Some? <==> KeptAlive(steps, x)
    ensures FateOver(steps, x).Some? ==>
      var y := FateOver(steps, x).value;
      y.id == x.id && y.addr == x.addr && y.key == x.key && y.heartTime == LastBeat(steps, x)
  {
    if steps != [] {
      var init, last := steps[..|steps| - 1], steps[|steps| - 1];
      FateOverIff(init, x);
      assert forall k :: 0 <= k < |init| ==> init[k] == steps[k] && init[..k] == steps[..k];
      assert KeptAlive(steps, x) <==>
             KeptAlive(init, x) && (last.Timer? ==> last.now <= LastBeat(init, x) + 120000);
      hide KeptAlive;
    }
  }

  lemma {:induction false} RunOnSession(s: State, steps: seq<Step>, x: Session)
    requires Inv(s) && x in s.sessions
    ensures Inv(Run(s, steps))
    ensures match FateOver(steps, x)
      case Some(y) => y in Run(s, steps).sessions
      case None => Absent(Run(s, steps), x.id)
    decreases |steps|
  {
    if steps != [] {
      var init, last := steps[..|steps| - 1], steps[|steps| - 1];
      var t := Run(s, init);
      RunOnSession(s, init, x);
      RunKeepsInv(s, steps);
      FateOverIff(init, x);
      RunAppend(s, init, [last]);
      assert steps == init + [last] && [last][1..] == [] && Run(t, [last]) == DoStep(t, last);
      hide Run, Absent, DoStep, KeptAlive, LastBeat;
      match FateOver(init, x) {
        case Some(y) => StepOnSession(t, last, y);
        case None => StaleIdIsNeverHonoured(t, [last], x.id);
      }
    }
  }

  /** Over any run a session is there at the end, heard of when the run says, if and only if every timer came
      within 120 seconds of the last authentication or heartbeat before it; else its id is gone for good. */
  lemma {:induction false} SessionLivesIff(s: State, steps: seq<Step>, x: Session)
    requires Inv(s) && x in s.sessions
    ensures Absent(Run(s, steps), x.id) <==> !KeptAlive(steps, x)
    ensures KeptAlive(steps, x) ==> Alive(Run(s, steps), x.addr, x.key, x.id, LastBeat(steps, x))
  {
    RunOnSession(s, steps, x);
    FateOverIff(steps, x);
    hide Run, FateOver, KeptAlive, LastBeat;
    if FateOver(steps, x).Some? {
      var t, y := Run(s, steps), FateOver(steps, x).value;
      var k :| 0 <= k < |t.sessions| && t.sessions[k] == y;
      assert Lives(y, x.addr, x.key, x.id, LastBeat(steps, x));
    }
  }
}
