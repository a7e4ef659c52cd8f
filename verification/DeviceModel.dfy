/** dm_message_cache.c, dm_ipc.c and iotx_dm_dispatch as they run, proved to do what DmState says. */
module DeviceModel {
  import opened Machine
  import opened DmState

  class Model {
    var cache: seq<Entry>
    var cacheSize: int
    var nextId: nat
    var queue: seq<Event>
    var size: int
    const maxSize: nat
    ghost var accepted: seq<Event>
    ghost var delivered: seq<Event>
    ghost var refused: seq<Event>
    ghost var inserted: seq<nat>
    ghost var silenced: seq<nat>

    ghost function View(): State
      reads this
    {
      State(cache, cacheSize, nextId, Ipc(queue, size, maxSize, accepted, delivered, refused), inserted, silenced)
    }

    constructor (maxSize: nat)
      ensures View() == Initial(maxSize) && Inv(View())
    {
      cache, cacheSize, nextId := [], 0, 0;
      queue, size := [], 0;
      this.maxSize := maxSize;
      accepted, delivered, refused, inserted, silenced := [], [], [], [], [];
    }

    /** dm_ipc_msg_insert */
    method IpcInsert(e: Event) returns (ok: bool)
      modifies this`queue, this`size, this`accepted, this`refused
      ensures View() == old(View()).(ipc := Send(old(View()).ipc, e))
      ensures ok <==> old(size) < maxSize
    {
      if size >= maxSize {
        refused := refused + [e];
        return false;
      }
      size := size + 1;
      queue := queue + [e];
      accepted := accepted + [e];
      ok := true;
    }

    /** dm_ipc_msg_next */
    method IpcNext() returns (r: Option<Event>)
      modifies this`queue, this`size, this`delivered
      ensures old(queue) == [] ==> r == None && View() == old(View())
      ensures old(queue) != [] ==> r == Some(old(queue)[0]) && View() == Next(old(View()))
    {
      if queue == [] {
        return None;
      }
      r := Some(queue[0]);
      delivered := delivered + [queue[0]];
      queue := queue[1..];
      size := size - 1;
    }

    /** dm_msg_cache_insert for a request that has just been sent and expects a reply. */
    method SendRequest(devid: int, kind: int, now: nat, expectsReply: bool) returns (cached: bool)
      modifies this
      ensures View() == DoRequest(old(View()), devid, kind, now, expectsReply)
      ensures cached <==> expectsReply && old(cacheSize) < CACHE_MAXLEN
    {
      var msgid := nextId;
      nextId := nextId + 1;
      cached := false;
      if expectsReply {
        if cacheSize >= CACHE_MAXLEN {
          return;
        }
        cache := cache + [Entry(msgid, devid, kind, now)];
        cacheSize := cacheSize + 1;
        inserted := inserted + [msgid];
        cached := true;
      }
    }

    /** dm_msg_cache_search: the first entry with this id, and none for an id that is not positive. */
    method CacheSearch(msgid: int) returns (r: Option<Entry>)
      ensures r.Some? <==> msgid > 0 && FirstById(cache, msgid) < |cache|
      ensures r.Some? ==> r.value == cache[FirstById(cache, msgid)]
    {
      if msgid <= 0 {
        return None;
      }
      var i := 0;
      while i < |cache|
        invariant 0 <= i <= |cache|
        invariant FirstById(cache, msgid) == i + FirstById(cache[i..], msgid)
      {
        if cache[i].msgid == msgid {
          return Some(cache[i]);
        }
        assert cache[i..][1..] == cache[i + 1..];
        i := i + 1;
      }
      r := None;
    }

    /** dm_msg_cache_remove */
    method CacheRemove(msgid: int) returns (found: bool)
      modifies this`cache, this`cacheSize
      ensures var i := FirstById(old(cache), msgid);
        if i == |old(cache)| then !found && cache == old(cache) && cacheSize == old(cacheSize)
        else found && cache == old(cache)[..i] + old(cache)[i + 1..] && cacheSize == old(cacheSize) - 1
    {
      var i := 0;
      while i < |cache|
        invariant 0 <= i <= |cache| && cache == old(cache) && cacheSize == old(cacheSize)
        invariant FirstById(cache, msgid) == i + FirstById(cache[i..], msgid)
      {
        if cache[i].msgid == msgid {
          cache := cache[..i] + cache[i + 1..];
          cacheSize := cacheSize - 1;
          return true;
        }
        assert cache[i..][1..] == cache[i + 1..];
        i := i + 1;
      }
      found := false;
    }

    /** A reply processor: the handler looks the id up and reports it, then the id is removed. */
    method ProcessReply(msgid: int)
      modifies this
      ensures View() == DoReply(old(View()), msgid)
    {
      var node := CacheSearch(msgid);
      if node.Some? {
        var ok := IpcInsert(Reply(msgid, node.value.devid));
      }
      var found := CacheRemove(msgid);
      if found && msgid <= 0 {
        silenced := silenced + [old(cache)[FirstById(old(cache), msgid)].msgid];
      }
    }

    method Perform(act: Act)
      modifies this
      ensures View() == DoAct(old(View()), act)
    {
      match act
      case Request(devid, kind, now, expectsReply) =>
        var cached := SendRequest(devid, kind, now, expectsReply);
      case CloudReply(msgid) => ProcessReply(msgid);
      case Post(tag) => var ok := IpcInsert(Other(tag));
    }

    /** The user's event callback: any sequence of acts. */
    method RunCallback(acts: seq<Act>)
      modifies this
      ensures View() == DoActs(old(View()), acts)
    {
      var i := 0;
      while i < |acts|
        invariant 0 <= i <= |acts| && DoActs(View(), acts[i..]) == DoActs(old(View()), acts)
      {
        assert acts[i..][1..] == acts[i + 1..];
        hide DoAct;
        Perform(acts[i]);
        i := i + 1;
      }
    }

    /** One entry's turn in a tick. */
    method Turn(i: nat, now: nat) returns (expired: bool)
      requires i < |cache|
      modifies this`cache, this`queue, this`size, this`accepted, this`refused
      ensures expired <==> Expired(old(cache)[i], now)
      ensures var e := old(cache)[i];
        View() == old(View()).(cache := old(cache)[i := Aged(e, now)],
                               ipc := if expired then Send(old(View()).ipc, Timeout(e.msgid, e.devid, e.kind))
                                      else old(View()).ipc)
    {
      if now < cache[i].ctime {
        cache := cache[i := cache[i].(ctime := now)];
      }
      expired := false;
      if now - cache[i].ctime >= TIMEOUT_MS {
        var ok := IpcInsert(Timeout(cache[i].msgid, cache[i].devid, cache[i].kind));
        expired := true;
      }
    }

    /** dm_msg_cache_tick: expired entries are unlinked while the list is walked. */
    method CacheTick(now: nat)
      modifies this
      ensures View() == DoTick(old(View()), now)
    {
      hide Expired, Aged, Send, TickKept, TickIpc, TickedSoFar;
      StartsTick(View(), now);
      var i := 0;
      while i < |cache|
        invariant i <= |cache| && TickedSoFar(old(View()), View(), now, i)
        decreases |cache| - i
      {
        ExtendsTick(old(View()), View(), now, i);
        var expired := Turn(i, now);
        if expired {
          cache := cache[..i] + cache[i + 1..];
          cacheSize := cacheSize - 1;
        } else {
          i := i + 1;
        }
      }
      EndsTick(old(View()), View(), now);
    }

    /** The loop body of the dispatch: turn `left` of the callback, unless the queue is empty. */
    method DispatchTurn(left: nat, callback: (nat, Event) -> seq<Act>) returns (ended: bool)
      requires Inv(View()) && (left == 0 ==> maxSize == 0)
      modifies this
      ensures Inv(View()) && (ended ==> View().ipc.queue == [])
      ensures Deliver(View(), if ended || left == 0 then left else left - 1, callback)
           == Deliver(old(View()), left, callback)
      ensures left == 0 ==> ended
    {
      ghost var s := View();
      if s.ipc.queue == [] {
        DeliverEnds(s, left, callback);
      } else {
        RoomForQueue(s);
        DeliverTurn(s, left, callback);
      }
      hide DoActs, Inv, Deliver;
      var e := IpcNext();
      if e == None {
        return true;
      }
      RunCallback(callback(left, e.value));
      ended := false;
    }

    /** The loop of iotx_dm_dispatch. With MAXLEN = 0 its guard is always true; it still ends, because a
        queue of capacity 0 never holds an event. */
    method DeliverEvents(callback: (nat, Event) -> seq<Act>)
      requires Inv(View())
      modifies this
      ensures View() == Deliver(old(View()), maxSize, callback) && Inv(View())
    {
      hide Inv, Deliver, View;
      var left := maxSize;
      while maxSize == 0 || left > 0
        invariant 0 <= left <= maxSize && Inv(View())
        invariant Deliver(View(), left, callback) == Deliver(old(View()), maxSize, callback)
        decreases left
      {
        var ended := DispatchTurn(left, callback);
        if ended {
          break;
        }
        left := left - 1;
      }
      DeliverEnds(View(), left, callback);
    }

    /** iotx_dm_dispatch */
    method DispatchEvents(now: nat, callback: (nat, Event) -> seq<Act>)
      requires Inv(View())
      modifies this
      ensures View() == DoStep(old(View()), Dispatch(now, callback)) && Inv(View())
      ensures View().ipc.queue == [] || |View().ipc.delivered| == |old(View()).ipc.delivered| + maxSize
    {
      assert View().ipc.maxSize == maxSize;
      TickKeepsInv(View(), now);
      DeliverKeepsInv(DoTick(View(), now), maxSize, callback);
      hide Inv, Deliver, DoTick;
      CacheTick(now);
      DeliverEvents(callback);
    }
  }

  /** The first `i` entries of `t` have had their turn; the rest are still as they were in `s`. */
  ghost predicate TickedSoFar(s: State, t: State, now: nat, i: nat)
    requires i <= |t.cache|
  {
    && TickKept(s.cache, now) == t.cache[..i] + TickKept(t.cache[i..], now)
    && TickIpc(s.ipc, s.cache, now) == TickIpc(t.ipc, t.cache[i..], now)
    && t.cacheSize == s.cacheSize - (|s.cache| - |t.cache|)
    && t == s.(cache := t.cache, ipc := t.ipc, cacheSize := t.cacheSize)
  }

  lemma {:induction false} StartsTick(s: State, now: nat)
    ensures TickedSoFar(s, s, now, 0)
  {
    assert s.cache[0..] == s.cache;
  }

  function AfterTurn(t: State, now: nat, i: nat): State
    requires i < |t.cache|
  {
    var e := t.cache[i];
    var aged := t.cache[i := Aged(e, now)];
    if Expired(e, now) then
      t.(cache := aged[..i] + aged[i + 1..], cacheSize := t.cacheSize - 1,
         ipc := Send(t.ipc, Timeout(e.msgid, e.devid, e.kind)))
    else
      t.(cache := aged)
  }

  lemma {:induction false} ExtendsTick(s: State, t: State, now: nat, i: nat)
    requires i < |t.cache| && TickedSoFar(s, t, now, i)
    ensures |AfterTurn(t, now, i).cache| == |t.cache| - (if Expired(t.cache[i], now) then 1 else 0)
    ensures TickedSoFar(s, AfterTurn(t, now, i), now, if Expired(t.cache[i], now) then i else i + 1)
  {
    var e, rest, next := t.cache[i], t.cache[i + 1..], AfterTurn(t, now, i);
    var j := if Expired(e, now) then i else i + 1;
    var turned := if Expired(e, now) then [] else [Aged(e, now)];
    assert t.cache[i..] == [e] + rest;
    assert t.cache[i..][0] == e && t.cache[i..][1..] == rest;
    assert TickKept(t.cache[i..], now) == turned + TickKept(rest, now);
    assert TickIpc(t.ipc, t.cache[i..], now) == TickIpc(next.ipc, rest, now);
    hide TickKept, TickIpc, Send, Aged, Expired;
    assert next.cache[j..] == rest;
    assert next.cache[..j] == t.cache[..i] + turned;
    assert next.cache[..j] + TickKept(rest, now) == t.cache[..i] + (turned + TickKept(rest, now));
  }

  lemma {:induction false} EndsTick(s: State, t: State, now: nat)
    requires TickedSoFar(s, t, now, |t.cache|)
    ensures t == DoTick(s, now)
  {
    assert t.cache[|t.cache|..] == [];
    assert t.cache[..|t.cache|] == t.cache;
  }
}
