/** The rate limiter object of scripts/rate-limiter.js: its methods change
    the brain step by step, and each is proved to reach the state the
    matching function of module Limits describes. */
module RateLimiter {
  import opened Delimited
  import opened Limits

  class RateLimiter {
    /** The robot's brain, shared with the rest of the robot. */
    var store: Store

    constructor (brain: Store)
      ensures store == brain
    {
      store := brain;
    }

    /** `_checkRateLimit`: whether the key holds a truthy value. */
    method CheckRateLimit(key: string) returns (active: bool)
      ensures active == Active(store, key)
    {
      active := key in store && store[key] != "";
    }

    /** `_addToMasterList`: read the list, push the key if it is missing,
        write the joined list back. */
    method AddToMasterList(key: string)
      modifies this
      ensures store == AddToList(old(store), key)
    {
      var masterList := GetMasterList(store);
      if IndexOf(masterList, key) == -1 {
        masterList := masterList + [key];
      }
      store := store[MasterListKey := Join(masterList)];
    }

    /** `_removeFromMasterList`: read the list, splice out the first
        occurrence of the key, write the joined list back. */
    method RemoveFromMasterList(key: string)
      modifies this
      ensures store == RemoveFromList(old(store), key)
    {
      var masterList := GetMasterList(store);
      var indexOfKey := IndexOf(masterList, key);
      if indexOfKey != -1 {
        RemoveFirstIsSplice(masterList, key);
        masterList := masterList[..indexOfKey] + masterList[indexOfKey + 1..];
      }
      store := store[MasterListKey := Join(masterList)];
    }

    /** `_addRateLimit`: set the marker, register the key in the master list
        and schedule its expiry, which is returned. */
    method AddRateLimit(key: string, limitTimeMilliseconds: int) returns (expiry: Timer)
      modifies this
      ensures store == AddToList(old(store)[key := "1"], key)
      ensures expiry == Timer(key, limitTimeMilliseconds)
    {
      store := store[key := "1"];
      AddToMasterList(key);
      expiry := Timer(key, limitTimeMilliseconds);
    }

    /** `_doWithLimit`: reject a key with a comma, otherwise prefix it, pick
        the window, and apply a limit and run the callback when the key is
        not already limited. */
    method DoWithLimit(key: string, limitTimeMilliseconds: int) returns (r: Result<Outcome>)
      modifies this
      ensures Step(r, store) == Limit(old(store), key, limitTimeMilliseconds)
      ensures Consistent(old(store)) ==> Consistent(store)
    {
      if Delimiter in key {
        return Err(CommaInKey);
      }
      var k := KeyPrepend + key;
      var window := limitTimeMilliseconds;
      if window == 0 {
        window := DefaultTimeout;
      }
      var active := CheckRateLimit(k);
      if !active {
        var expiry := AddRateLimit(k, window);
        r := Ok(Invoked(expiry));
      } else {
        r := Ok(Skipped);
      }
      if Consistent(old(store)) {
        LimitPreservesConsistent(old(store), key, limitTimeMilliseconds);
      }
    }

    /** `_removeRateLimit`, which the scheduled expiry calls: remove the
        marker and the key's master-list entry. */
    method RemoveRateLimit(key: string)
      modifies this
      ensures store == Expire(old(store), key)
      ensures Consistent(old(store)) && key != MasterListKey ==> Consistent(store)
    {
      store := store - {key};
      RemoveFromMasterList(key);
      if Consistent(old(store)) && key != MasterListKey {
        ExpirePreservesConsistent(old(store), key);
      }
    }

    /** `_removeAllRateLimits`, the boot sweep: remove the limit of every key
        in the master list, then the master list itself. */
    method RemoveAllRateLimits()
      modifies this
      ensures store == Sweep(old(store))
      ensures Consistent(old(store)) ==> Consistent(store) && GetMasterList(store) == []
    {
      var masterList := GetMasterList(store);
      var i := 0;
      while i < |masterList|
        invariant 0 <= i <= |masterList|
        invariant store == SweepFrom(old(store), masterList[..i])
      {
        ghost var prev := store;
        RemoveRateLimit(masterList[i]);
        assert store == Expire(prev, masterList[i]);
        assert masterList[..i + 1][..i] == masterList[..i];
        i := i + 1;
      }
      assert masterList[..i] == masterList;
      store := store - {MasterListKey};
      if Consistent(old(store)) {
        SweepClearsAll(old(store));
      }
    }
  }
}
