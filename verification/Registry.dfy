/** The device registry of dm_manager.c: an append-only order of device ids behind a list of devices. */
module Registry {
  import opened Machine

  const LOCAL_NODE := 0
  const PRODUCT_KEY_LEN := 20
  const DEVICE_NAME_LEN := 32
  const DEVICE_SECRET_LEN := 64

  datatype Device = Device(devid: nat, devType: int, productKey: string, deviceName: string, secret: string)

  datatype Code = Success | InvalidParameter | Fail

  datatype State = State(devs: seq<Device>, nextDevid: nat)

  // ---------------------------------------------------------------- operations

  function FirstById(devs: seq<Device>, devid: int): (i: nat)
    ensures i <= |devs|
    ensures i < |devs| ==> devs[i].devid == devid
    ensures forall j :: 0 <= j < i ==> devs[j].devid != devid
  {
    if devs == [] || devs[0].devid == devid then 0 else 1 + FirstById(devs[1..], devid)
  }

  predicate Named(d: Device, pk: string, dn: string) { d.productKey == pk && d.deviceName == dn }

  function FirstByName(devs: seq<Device>, pk: string, dn: string): (i: nat)
    ensures i <= |devs|
    ensures i < |devs| ==> Named(devs[i], pk, dn)
    ensures forall j :: 0 <= j < i ==> !Named(devs[j], pk, dn)
  {
    if devs == [] || Named(devs[0], pk, dn) then 0 else 1 + FirstByName(devs[1..], pk, dn)
  }

  predicate FitsBuffers(pk: string, dn: string, secret: Option<string>) {
    |pk| <= PRODUCT_KEY_LEN && |dn| <= DEVICE_NAME_LEN && (secret.Some? ==> |secret.value| <= DEVICE_SECRET_LEN)
  }

  datatype Created = Created(state: State, code: Code, devid: Option<nat>)

  /** dm_mgr_device_create; it reports the id of a device that exists already, too. */
  function DoCreate(s: State, devType: int, pk: string, dn: string, secret: Option<string>): Created {
    if !FitsBuffers(pk, dn, secret) then Created(s, InvalidParameter, None) else
    var i := FirstByName(s.devs, pk, dn);
    if i < |s.devs| then Created(s, Fail, Some(s.devs[i].devid)) else
    var d := Device(s.nextDevid, devType, pk, dn, if secret.Some? then secret.value else "");
    Created(State(s.devs + [d], s.nextDevid + 1), Success, Some(s.nextDevid))
  }

  /** dm_mgr_device_destroy */
  function DoDestroy(s: State, devid: int): (State, Code) {
    if devid < 0 then (s, InvalidParameter) else
    var i := FirstById(s.devs, devid);
    if i == |s.devs| || s.devs[i].devid == LOCAL_NODE then (s, Fail)
    else (s.(devs := s.devs[..i] + s.devs[i + 1..]), Success)
  }

  /** dm_mgr_get_devid_by_index */
  function ByIndex(devs: seq<Device>, index: int): Option<nat> {
    if 0 <= index < |devs| then Some(devs[index].devid) else None
  }

  /** dm_mgr_get_next_devid */
  function Next(devs: seq<Device>, devid: int): Option<nat> {
    if devid < 0 then None else
    var i := FirstById(devs, devid);
    if i + 1 < |devs| then Some(devs[i + 1].devid) else None
  }

  datatype Step =
    | Create(devType: int, productKey: string, deviceName: string, secret: Option<string>)
    | Destroy(devid: int)

  function DoStep(s: State, step: Step): State {
    match step
    case Create(devType, pk, dn, secret) => DoCreate(s, devType, pk, dn, secret).state
    case Destroy(devid) => DoDestroy(s, devid).0
  }

  function Run(s: State, steps: seq<Step>): State
    decreases |steps|
  {
    if steps == [] then s else Run(DoStep(s, steps[0]), steps[1..])
  }

  /** dm_mgr_init */
  function Initial(devType: int, pk: string, dn: string): State {
    State([Device(LOCAL_NODE, devType, pk, dn, "")], LOCAL_NODE + 1)
  }

  // ---------------------------------------------------------------- the invariant

  /** Ids increase along the list, which starts at the local node; names are distinct and fit. */
  predicate Inv(s: State) {
    && s.devs != [] && s.devs[0].devid == LOCAL_NODE
    && (forall i :: 0 <= i < |s.devs| ==>
          && s.devs[i].devid < s.nextDevid
          && |s.devs[i].productKey| <= PRODUCT_KEY_LEN && |s.devs[i].deviceName| <= DEVICE_NAME_LEN)
    && (forall i, j :: 0 <= i < j < |s.devs| ==> s.devs[i].devid < s.devs[j].devid)
    && (forall i, j :: 0 <= i < j < |s.devs| ==> !Named(s.devs[j], s.devs[i].productKey, s.devs[i].deviceName))
  }

  lemma {:induction false} CreateKeepsInv(s: State, devType: int, pk: string, dn: string, secret: Option<string>)
    requires Inv(s)
    ensures var t := DoCreate(s, devType, pk, dn, secret).state; Inv(t) && s.devs <= t.devs
  {
    var t := DoCreate(s, devType, pk, dn, secret).state;
    if t != s {
      assert forall k :: 0 <= k < |s.devs| ==> !Named(s.devs[k], pk, dn);
      hide FirstByName;
      forall i, j | 0 <= i < j < |t.devs|
        ensures t.devs[i].devid < t.devs[j].devid && !Named(t.devs[j], t.devs[i].productKey, t.devs[i].deviceName)
      {
        assert t.devs[i] == s.devs[i];
      }
    }
  }

  lemma {:induction false} DestroyKeepsInv(s: State, devid: int)
    requires Inv(s)
    ensures Inv(DoDestroy(s, devid).0)
    ensures DoDestroy(s, devid).0.devs[0] == s.devs[0]
  {
    var t := DoDestroy(s, devid).0;
    if t != s {
      var i := FirstById(s.devs, devid);
      assert i > 0;
      hide FirstById;
      RemoveKeepsInv(s, i);
    }
  }

  lemma {:induction false} RemoveKeepsInv(s: State, k: nat)
    requires Inv(s) && 0 < k < |s.devs|
    ensures Inv(s.(devs := s.devs[..k] + s.devs[k + 1..]))
  {
    var devs := s.devs[..k] + s.devs[k + 1..];
    forall i, j | 0 <= i < j < |devs|
      ensures devs[i].devid < devs[j].devid && !Named(devs[j], devs[i].productKey, devs[i].deviceName)
    {
      var i', j' := if i < k then i else i + 1, if j < k then j else j + 1;
      assert devs[i] == s.devs[i'] && devs[j] == s.devs[j'];
    }
  }

  /** The registry order holds in every reachable state, and the local node stays where it is. */
  lemma {:induction false} RunKeepsInv(s: State, steps: seq<Step>)
    requires Inv(s)
    ensures Inv(Run(s, steps)) && Run(s, steps).devs[0] == s.devs[0]
    decreases |steps|
  {
    if steps != [] {
      match steps[0] {
        case Create(devType, pk, dn, secret) => CreateKeepsInv(s, devType, pk, dn, secret);
        case Destroy(devid) => DestroyKeepsInv(s, devid);
      }
      hide DoCreate, DoDestroy, Inv;
      assert Inv(DoStep(s, steps[0]));
      RunKeepsInv(DoStep(s, steps[0]), steps[1..]);
    }
  }

  // ---------------------------------------------------------------- single operations

  /** A device whose texts fit and whose names are new is appended under the next id; otherwise nothing
      changes. */
  lemma {:induction false} CreateExactly(s: State, devType: int, pk: string, dn: string, secret: Option<string>)
    ensures var c := DoCreate(s, devType, pk, dn, secret);
      var fits := |pk| <= 20 && |dn| <= 32 && (secret.Some? ==> |secret.value| <= 64);
      var taken := exists d :: d in s.devs && d.productKey == pk && d.deviceName == dn;
      && (fits && !taken ==>
            && c.state.devs
               == s.devs + [Device(s.nextDevid, devType, pk, dn, if secret.Some? then secret.value else "")]
            && c.state.nextDevid == s.nextDevid + 1 && c.code == Success && c.devid == Some(s.nextDevid))
      && (fits && taken ==> c.state == s && c.code == Fail && c.devid.Some?)
      && (!fits ==> c == Created(s, InvalidParameter, None))
  {
    var i := FirstByName(s.devs, pk, dn);
    assert i < |s.devs| ==> s.devs[i] in s.devs;
  }

  /** Destroying a device behind the local node takes out that device and no other. */
  lemma {:induction false} DestroyExactly(s: State, before: seq<Device>, d: Device, after: seq<Device>)
    requires s.devs == before + [d] + after && d.devid > 0 && forall x :: x in before ==> x.devid != d.devid
    ensures DoDestroy(s, d.devid) == (State(before + after, s.nextDevid), Success)
  {
    assert forall j :: 0 <= j < |before| ==> s.devs[j] == before[j] && before[j] in before;
    assert s.devs[|before|] == d;
    var i := FirstById(s.devs, d.devid);
    assert i == |before|;
    assert s.devs[..i] == before && s.devs[i + 1..] == after;
  }

  /** Destroying the local node, or a device that is not there, changes nothing. */
  lemma {:induction false} DestroyRefuses(s: State, devid: int)
    requires devid <= 0 || forall x :: x in s.devs ==> x.devid != devid
    ensures DoDestroy(s, devid) == (s, if devid < 0 then InvalidParameter else Fail)
  {
    var i := FirstById(s.devs, devid);
    assert i < |s.devs| ==> s.devs[i] in s.devs;
  }

  /** The registry starts with the local node, whose id is 0; the first device that is created has the id 1. */
  lemma {:induction false} FirstDevice(devType: int, pk: string, dn: string, other: string)
    requires |pk| <= 20 && |dn| <= 32 && |other| <= 32 && other != dn
    ensures Inv(Initial(devType, pk, dn))
    ensures DoCreate(Initial(devType, pk, dn), devType, pk, other, None).state
         == State([Device(0, devType, pk, dn, ""), Device(1, devType, pk, other, "")], 2)
  {
    CreateExactly(Initial(devType, pk, dn), devType, pk, other, None);
  }

  // ---------------------------------------------------------------- lookup and iteration

  lemma {:induction false} FindsItself(s: State, i: nat)
    requires Inv(s) && i < |s.devs|
    ensures FirstById(s.devs, s.devs[i].devid) == i
    ensures FirstByName(s.devs, s.devs[i].productKey, s.devs[i].deviceName) == i
  {
    var j, k := FirstById(s.devs, s.devs[i].devid), FirstByName(s.devs, s.devs[i].productKey, s.devs[i].deviceName);
    assert j <= i && k <= i;
    hide FirstById, FirstByName;
    assert Named(s.devs[i], s.devs[k].productKey, s.devs[k].deviceName);
  }

  /** dm_mgr_get_next_devid moves one index on. */
  lemma {:induction false} NextInOrder(s: State, i: nat)
    requires Inv(s) && i < |s.devs|
    ensures Next(s.devs, s.devs[i].devid) == ByIndex(s.devs, i + 1)
         == if i + 1 < |s.devs| then Some(s.devs[i + 1].devid) else None
  {
    FindsItself(s, i);
    hide FirstById, FirstByName, Inv;
  }

  /** The id that `n` calls of dm_mgr_get_next_devid lead to. */
  function Walk(devs: seq<Device>, from: int, n: nat): Option<nat>
    decreases n
  {
    if n == 0 then (if from < 0 then None else Some(from)) else
    match Next(devs, from)
    case None => None
    case Some(next) => Walk(devs, next, n - 1)
  }

  lemma {:induction false} WalkFrom(s: State, i: nat, n: nat)
    requires Inv(s) && i < |s.devs|
    ensures Walk(s.devs, s.devs[i].devid, n) == ByIndex(s.devs, i + n)
    decreases n
  {
    NextInOrder(s, i);
    hide Next, Inv;
    if n > 0 && i + 1 < |s.devs| {
      WalkFrom(s, i + 1, n - 1);
    }
  }

  /** From the local node on, dm_mgr_get_next_devid visits every device once, in the order of
      dm_mgr_get_devid_by_index, and then stops. */
  lemma {:induction false} WalkVisitsAll(s: State, n: nat)
    requires Inv(s)
    ensures Walk(s.devs, 0, n) == ByIndex(s.devs, n) == if n < |s.devs| then Some(s.devs[n].devid) else None
    ensures ByIndex(s.devs, n) == None <==> |s.devs| <= n
    ensures forall m: nat :: m < n < |s.devs| ==> ByIndex(s.devs, m).value < ByIndex(s.devs, n).value
  {
    WalkFrom(s, 0, n);
  }

  /** Creating a device that fits and is new succeeds; afterwards both lookups find it. */
  lemma {:induction false} CreateIsFound(s: State, devType: int, pk: string, dn: string, secret: Option<string>)
    requires Inv(s)
    ensures var c := DoCreate(s, devType, pk, dn, secret);
      && (c.code == Success
          <==> (FitsBuffers(pk, dn, secret) && forall i :: 0 <= i < |s.devs| ==> !Named(s.devs[i], pk, dn)))
      && (c.code == InvalidParameter <==> !FitsBuffers(pk, dn, secret))
      && (c.devid.Some? ==> var i := FirstByName(c.state.devs, pk, dn);
            i < |c.state.devs| && c.state.devs[i].devid == c.devid.value && FirstById(c.state.devs, c.devid.value) == i)
  {
    CreateKeepsInv(s, devType, pk, dn, secret);
    var c := DoCreate(s, devType, pk, dn, secret);
    hide FitsBuffers;
    if c.devid.Some? {
      var i := FirstByName(s.devs, pk, dn);
      assert c.state.devs[i].devid == c.devid.value && Named(c.state.devs[i], pk, dn);
      FindsItself(c.state, i);
    }
  }

  predicate Gone(s: State, devid: nat) {
    devid < s.nextDevid && forall i :: 0 <= i < |s.devs| ==> s.devs[i].devid != devid
  }

  lemma StepKeepsGone(s: State, step: Step, devid: nat)
    requires Gone(s, devid)
    ensures Gone(DoStep(s, step), devid)
  {
  }

  /** The id of a destroyed device is never used again. */
  lemma {:induction false} IdsAreNotReused(s: State, devid: nat, steps: seq<Step>)
    requires Inv(s) && DoDestroy(s, devid).1 == Success
    ensures Gone(Run(DoDestroy(s, devid).0, steps), devid)
  {
    var t, i := DoDestroy(s, devid).0, FirstById(s.devs, devid);
    FindsItself(s, i);
    assert Gone(t, devid);
    RunKeepsGone(t, steps, devid);
  }

  lemma {:induction false} RunKeepsGone(s: State, steps: seq<Step>, devid: nat)
    requires Gone(s, devid)
    ensures Gone(Run(s, steps), devid)
    decreases |steps|
  {
    if steps != [] {
      StepKeepsGone(s, steps[0], devid);
      hide DoStep, Gone;
      RunKeepsGone(DoStep(s, steps[0]), steps[1..], devid);
    }
  }
}
