/** alcs_server.c as it runs: the key list and the session list are walked and changed in place, and
    every operation is proved to do what AlcsKeys and AlcsSessions say. */
module AlcsServer {
  import opened Machine
  import K = AlcsKeys
  import S = AlcsSessions

  class KeyList {
    var keys: seq<K.Key>
    var svrCount: int

    ghost function View(): K.State
      reads this
    {
      K.State(keys, svrCount)
    }

    constructor ()
      ensures View() == K.INITIAL && K.Inv(View())
    {
      keys, svrCount := [], 0;
    }

    /** alcs_remove_low_priority_key */
    method RemoveLowPriority(priority: nat)
      modifies this
      ensures View() == K.DoPurge(old(View()), priority)
    {
      ghost var all := keys;
      var i := 0;
      assert keys[0..] == keys && keys[..0] == [];
      while i < |keys|
        invariant 0 <= i <= |keys| && K.Purge(all, priority) == keys[..i] + K.Purge(keys[i..], priority)
        invariant svrCount == old(svrCount) - (|all| - |keys|)
        decreases |keys| - i
      {
        PurgeStep(keys, i, priority);
        if keys[i].priority < priority {
          keys := keys[..i] + keys[i + 1..];
          svrCount := svrCount - 1;
        } else {
          i := i + 1;
        }
      }
      PurgeEnd(keys, priority);
    }

    /** add_svr_key */
    method Add(prefix: string, secret: string, priority: nat) returns (code: K.Code)
      modifies this
      ensures (View(), code) == K.DoAdd(old(View()), prefix, secret, priority)
    {
      if svrCount >= K.KEY_MAXCOUNT || |prefix| != K.KEYPREFIX_LEN {
        return K.InvalidLength;
      }
      RemoveLowPriority(priority);
      hide K.Purge;
      var i := 0;
      while i < |keys|
        invariant 0 <= i <= |keys|
        invariant forall j :: 0 <= j < i ==> keys[j].priority <= priority
      {
        if keys[i].priority > priority {
          return K.Unsupported;
        }
        i := i + 1;
      }
      keys := keys + [K.Key(prefix, secret, priority)];
      svrCount := svrCount + 1;
      code := K.Success;
    }

    /** alcs_remove_svr_key */
    method Remove(prefix: string)
      modifies this
      ensures View() == K.DoRemove(old(View()), prefix)
    {
      var i := 0;
      assert keys[0..] == keys;
      while i < |keys|
        invariant 0 <= i <= |keys| && keys == old(keys) && svrCount == old(svrCount)
        invariant K.FirstByPrefix(keys, prefix) == i + K.FirstByPrefix(keys[i..], prefix)
      {
        if keys[i].prefix == prefix {
          keys := keys[..i] + keys[i + 1..];
          svrCount := svrCount - 1;
          return;
        }
        assert keys[i..][1..] == keys[i + 1..];
        i := i + 1;
      }
    }
  }

  lemma {:induction false} PurgeStep(keys: seq<K.Key>, i: nat, priority: nat)
    requires i < |keys|
    ensures keys[..i] + K.Purge(keys[i..], priority)
         == if keys[i].priority < priority
            then (keys[..i] + keys[i + 1..])[..i] + K.Purge((keys[..i] + keys[i + 1..])[i..], priority)
            else keys[..i + 1] + K.Purge(keys[i + 1..], priority)
  {
    assert keys[i..][0] == keys[i] && keys[i..][1..] == keys[i + 1..];
    assert K.Purge(keys[i..], priority)
        == (if keys[i].priority < priority then [] else [keys[i]]) + K.Purge(keys[i + 1..], priority);
    hide K.Purge;
    var shorter := keys[..i] + keys[i + 1..];
    assert shorter[..i] == keys[..i] && shorter[i..] == keys[i + 1..];
    assert keys[..i + 1] == keys[..i] + [keys[i]];
  }

  lemma PurgeEnd(keys: seq<K.Key>, priority: nat)
    ensures keys[..|keys|] + K.Purge(keys[|keys|..], priority) == keys
  {
  }

  // ---------------------------------------------------------------- sessions

  class SessionTable {
    var sessions: seq<S.Session>
    var seed: nat
    ghost var log: seq<S.Event>

    ghost function View(): S.State
      reads this
    {
      S.State(sessions, seed, log)
    }

    constructor ()
      ensures View() == S.INITIAL && S.Inv(View())
    {
      sessions, seed, log := [], S.FIRST_SEED, [];
    }

    /** get_session_by_checksum; the result is an index, the length if there is no session. */
    method FindSession(addr: S.Address, key: S.checksum) returns (i: nat)
      ensures i == S.FirstMatch(sessions, addr, key)
    {
      i := 0;
      assert sessions[0..] == sessions;
      while i < |sessions|
        invariant 0 <= i <= |sessions|
        invariant S.FirstMatch(sessions, addr, key) == i + S.FirstMatch(sessions[i..], addr, key)
      {
        if S.Matches(sessions[i], addr, key) {
          return i;
        }
        assert sessions[i..][1..] == sessions[i + 1..];
        i := i + 1;
      }
    }

    /** alcs_rec_auth from the session lookup on */
    method RecAuth(addr: S.Address, key: S.checksum, now: nat) returns (id: nat)
      modifies this
      ensures View() == S.DoAuth(old(View()), addr, key, now)
      ensures S.Known(sessions, addr, key, id)
    {
      var i := FindSession(addr, key);
      hide S.FirstMatch;
      if i == |sessions| {
        seed := seed + 1;
        sessions := sessions + [S.Session(seed, addr, key, 0, 0)];
        log := log + [S.Opened(seed, addr, key)];
      }
      sessions := sessions[i := sessions[i].(authedTime := now, heartTime := now)];
      id := sessions[i].id;
    }

    /** alcs_rec_heart_beat; an empty table does not even answer. */
    method RecHeartBeat(addr: S.Address, now: nat) returns (found: bool)
      modifies this`sessions
      ensures View() == old(View()).(sessions := S.Refresh(old(sessions), addr, now))
      ensures found <==> exists i :: 0 <= i < |sessions| && S.Beats(sessions[i], addr)
    {
      ghost var all, last := sessions, 0;
      found := false;
      var i := 0;
      while i < |sessions|
        invariant 0 <= i <= |sessions| == |all| && sessions[i..] == all[i..]
        invariant forall k :: 0 <= k < i ==> sessions[k] == S.Refreshed(all[k], addr, now)
        invariant if found then last < i && S.Beats(all[last], addr)
                  else forall k :: 0 <= k < i ==> !S.Beats(all[k], addr)
      {
        assert sessions[i] == sessions[i..][0] == all[i];
        assert sessions[i + 1..] == sessions[i..][1..] == all[i + 1..];
        if S.Beats(sessions[i], addr) {
          sessions := sessions[i := sessions[i].(heartTime := now)];
          found, last := true, i;
        }
        i := i + 1;
      }
      assert sessions == S.Refresh(all, addr, now);
      assert found ==> S.Beats(sessions[last], addr);
    }

    /** on_svr_auth_timer */
    method OnTimer(now: nat)
      modifies this`sessions, this`log
      ensures View() == S.DoTimer(old(View()), now)
    {
      ghost var s := View();
      var i := 0;
      assert sessions[0..] == sessions && sessions[..0] == [];
      while i < |sessions|
        invariant 0 <= i <= |sessions|
        invariant S.Fresh(s.sessions, now) == sessions[..i] + S.Fresh(sessions[i..], now)
        invariant s.log + S.Removals(s.sessions, now) == log + S.Removals(sessions[i..], now)
        decreases |sessions| - i
      {
        FreshStep(sessions, i, now);
        RemovalsStep(log, sessions, i, now);
        if S.Stale(sessions[i], now) {
          log := log + [S.Removed(sessions[i].id)];
          sessions := sessions[..i] + sessions[i + 1..];
        } else {
          i := i + 1;
        }
      }
      FreshEnd(sessions, log, now);
    }

    /** recv_msg_handler up to the callback */
    method RecvMessage(resource: Option<S.checksum>, addr: S.Address, id: nat) returns (called: bool)
      modifies this`log
      ensures View() == S.DoRequest(old(View()), resource, addr, id)
      ensures S.TableOk(sessions, seed) ==>
        (called <==> resource.Some? && S.Known(sessions, addr, resource.value, id))
    {
      if resource == None {
        return false;
      }
      ghost var s := View();
      var i := FindSession(addr, resource.value);
      if S.TableOk(sessions, seed) {
        S.RequestIsHonouredIff(s, resource.value, addr, id);
      }
      hide S.FirstMatch, S.TableOk, S.Known;
      if i == |sessions| || sessions[i].id != id {
        log := log + [S.Unauthorized(addr)];
        return false;
      }
      log := log + [S.Called(id, addr, resource.value)];
      called := true;
    }
  }

  lemma {:induction false} FreshStep(sessions: seq<S.Session>, i: nat, now: nat)
    requires i < |sessions|
    ensures sessions[..i] + S.Fresh(sessions[i..], now)
         == if S.Stale(sessions[i], now)
            then (sessions[..i] + sessions[i + 1..])[..i] + S.Fresh((sessions[..i] + sessions[i + 1..])[i..], now)
            else sessions[..i + 1] + S.Fresh(sessions[i + 1..], now)
  {
    assert sessions[i..][0] == sessions[i] && sessions[i..][1..] == sessions[i + 1..];
    assert S.Fresh(sessions[i..], now)
        == (if S.Stale(sessions[i], now) then [] else [sessions[i]]) + S.Fresh(sessions[i + 1..], now);
    hide S.Fresh, S.Stale;
    var shorter := sessions[..i] + sessions[i + 1..];
    assert shorter[..i] == sessions[..i] && shorter[i..] == sessions[i + 1..];
    assert sessions[..i + 1] == sessions[..i] + [sessions[i]];
  }

  lemma {:induction false} RemovalsStep(log: seq<S.Event>, sessions: seq<S.Session>, i: nat, now: nat)
    requires i < |sessions|
    ensures log + S.Removals(sessions[i..], now)
         == if S.Stale(sessions[i], now)
            then (log + [S.Removed(sessions[i].id)]) + S.Removals((sessions[..i] + sessions[i + 1..])[i..], now)
            else log + S.Removals(sessions[i + 1..], now)
  {
    assert sessions[i..][0] == sessions[i] && sessions[i..][1..] == sessions[i + 1..];
    assert S.Removals(sessions[i..], now)
        == (if S.Stale(sessions[i], now) then [S.Removed(sessions[i].id)] else []) + S.Removals(sessions[i + 1..], now);
    hide S.Removals, S.Stale;
    assert (sessions[..i] + sessions[i + 1..])[i..] == sessions[i + 1..];
  }

  lemma FreshEnd(sessions: seq<S.Session>, log: seq<S.Event>, now: nat)
    ensures sessions[..|sessions|] + S.Fresh(sessions[|sessions|..], now) == sessions
    ensures log + S.Removals(sessions[|sessions|..], now) == log
  {
  }
}
