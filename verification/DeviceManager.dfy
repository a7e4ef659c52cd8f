/** dm_manager.c as it runs: the device list is walked and changed in place, and every operation is
    proved to do what Registry says. */
module DeviceManager {
  import opened Machine
  import opened Registry

  class Manager {
    var devs: seq<Device>
    var globalDevid: nat

    ghost function View(): State
      reads this
    {
      State(devs, globalDevid)
    }

    /** dm_mgr_init; the names come in buffers of their maximal length. */
    constructor (devType: int, productKey: string, deviceName: string)
      requires |productKey| <= PRODUCT_KEY_LEN && |deviceName| <= DEVICE_NAME_LEN
      ensures View() == Initial(devType, productKey, deviceName) && Inv(View())
    {
      globalDevid := LOCAL_NODE + 1;
      devs := [Device(LOCAL_NODE, devType, productKey, deviceName, "")];
    }

    /** _dm_mgr_next_devid */
    method NextDevid() returns (devid: nat)
      modifies this`globalDevid
      ensures devid == old(globalDevid) && globalDevid == old(globalDevid) + 1
    {
      devid := globalDevid;
      globalDevid := globalDevid + 1;
    }

    /** _dm_mgr_search_dev_by_devid; the result is an index, the length if there is no such device. */
    method SearchByDevid(devid: int) returns (i: nat)
      ensures i == FirstById(devs, devid)
    {
      i := 0;
      assert devs[0..] == devs;
      while i < |devs|
        invariant 0 <= i <= |devs| && FirstById(devs, devid) == i + FirstById(devs[i..], devid)
      {
        if devs[i].devid == devid {
          return i;
        }
        assert devs[i..][1..] == devs[i + 1..];
        i := i + 1;
      }
    }

    /** _dm_mgr_search_dev_by_pkdn */
    method SearchByName(pk: string, dn: string) returns (i: nat)
      ensures i == FirstByName(devs, pk, dn)
    {
      i := 0;
      assert devs[0..] == devs;
      while i < |devs|
        invariant 0 <= i <= |devs| && FirstByName(devs, pk, dn) == i + FirstByName(devs[i..], pk, dn)
      {
        if |devs[i].productKey| == |pk| && devs[i].productKey == pk
           && |devs[i].deviceName| == |dn| && devs[i].deviceName == dn {
          return i;
        }
        assert devs[i..][1..] == devs[i + 1..];
        i := i + 1;
      }
    }

    /** dm_mgr_device_create */
    method DeviceCreate(devType: int, pk: string, dn: string, secret: Option<string>)
      returns (code: Code, devid: Option<nat>)
      modifies this
      ensures Created(View(), code, devid) == DoCreate(old(View()), devType, pk, dn, secret)
    {
      hide FirstByName;
      devid := None;
      if |pk| >= PRODUCT_KEY_LEN + 1 || |dn| >= DEVICE_NAME_LEN + 1 {
        return InvalidParameter, devid;
      }
      if secret.Some? && |secret.value| >= DEVICE_SECRET_LEN + 1 {
        return InvalidParameter, devid;
      }
      var i := SearchByName(pk, dn);
      if i < |devs| {
        return Fail, Some(devs[i].devid);
      }
      var id := NextDevid();
      devs := devs + [Device(id, devType, pk, dn, if secret.Some? then secret.value else "")];
      return Success, Some(id);
    }

    /** dm_mgr_device_destroy */
    method DeviceDestroy(devid: int) returns (code: Code)
      modifies this`devs
      ensures (View(), code) == DoDestroy(old(View()), devid)
    {
      if devid < 0 {
        return InvalidParameter;
      }
      var i := SearchByDevid(devid);
      if i == |devs| {
        return Fail;
      }
      if devs[i].devid == LOCAL_NODE {
        return Fail;
      }
      devs := devs[..i] + devs[i + 1..];
      code := Success;
    }

    /** dm_mgr_device_number */
    method DeviceNumber() returns (index: nat)
      ensures index == |devs|
    {
      index := 0;
      while index < |devs|
        invariant 0 <= index <= |devs|
      {
        index := index + 1;
      }
    }

    /** dm_mgr_get_devid_by_index */
    method GetDevidByIndex(index: int) returns (code: Code, devid: nat)
      ensures code == if index < 0 then InvalidParameter else if index < |devs| then Success else Fail
      ensures code == Success ==> devid == devs[index].devid && ByIndex(devs, index) == Some(devid)
    {
      devid := 0;
      if index < 0 {
        return InvalidParameter, devid;
      }
      var searchIndex := 0;
      while searchIndex < |devs|
        invariant 0 <= searchIndex <= |devs| && searchIndex <= index
      {
        if searchIndex == index {
          return Success, devs[searchIndex].devid;
        }
        searchIndex := searchIndex + 1;
      }
      code := Fail;
    }

    /** dm_mgr_get_next_devid remembers a match and answers with the node after it. */
    method GetNextDevid(devid: int) returns (code: Code, next: nat)
      ensures code == if devid < 0 then InvalidParameter else if Next(devs, devid) == None then Fail else Success
      ensures code == Success ==> Next(devs, devid) == Some(next)
      ensures code == Success ==>
        exists i :: 0 <= i < |devs| - 1 && devs[i].devid == devid && devs[i + 1].devid == next
    {
      next := 0;
      if devid < 0 {
        return InvalidParameter, next;
      }
      ghost var first := FirstById(devs, devid);
      hide FirstById;
      var search: Option<nat> := None;
      var i := 0;
      while i < |devs|
        invariant 0 <= i <= |devs| && i <= first + 1
        invariant search == if i <= first then None else Some(first)
      {
        if search.Some? && devs[search.value].devid == devid {
          return Success, devs[i].devid;
        }
        if devs[i].devid == devid {
          search := Some(i);
        }
        i := i + 1;
      }
      code := Fail;
    }
  }
}
