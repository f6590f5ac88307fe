/** The rate limiter's behaviour on the robot's brain, as pure functions from
    one state of the store to the next. The class in module RateLimiter runs
    the same steps imperatively and is proved equal to these functions. */
module Limits {
  import opened Delimited

  /** The brain: a string-to-string key-value store. */
  type Store = map<string, string>

  const KeyPrepend: string := "rate-limit."
  const MasterListKey: string := "rate-limit-master-list"
  /** Five minutes, in milliseconds. */
  const DefaultTimeout: int := 300000

  datatype Error = CommaInKey
  datatype Result<T> = Ok(value: T) | Err(error: Error)

  /** An expiry scheduled with `setTimeout`: remove the limit on `key` after
      `delayMs` milliseconds. */
  datatype Timer = Timer(key: string, delayMs: int)

  /** What a gate call did: skipped the callback because the key was limited,
      or invoked the callback once and scheduled the expiry. */
  datatype Outcome = Skipped | Invoked(expiry: Timer)

  datatype Step = Step(result: Result<Outcome>, store: Store)

  /** `brain.get(key) || false` is truthy: the key holds a non-empty string. */
  predicate Active(s: Store, key: string)
  {
    key in s && s[key] != ""
  }

  /** The constants block: the default window is five minutes in
      milliseconds, the prefix holds no delimiter, and the master-list key
      lies outside the prefixed namespace. */
  lemma ConstantsBlock()
    ensures DefaultTimeout == 5 * 60 * 1000
    ensures KeyPrepend != "" && Delimiter !in KeyPrepend
    ensures !(KeyPrepend <= MasterListKey)
  {
    assert KeyPrepend[10] != MasterListKey[10];
  }

  /** The marker `"1"` makes a key active and removing the key makes it
      inactive; nothing else about the store matters. */
  lemma MarkerIsActive(s: Store, key: string)
    ensures Active(s[key := "1"], key)
    ensures !Active(s - {key}, key)
    ensures !Active(s[key := ""], key)
  {
  }

  /** A storage key of a rate limit: the namespace prefix and no delimiter. */
  predicate IsLimitKey(k: string)
  {
    KeyPrepend <= k && Delimiter !in k
  }

  lemma LimitKeyIsNotMasterListKey(k: string)
    requires IsLimitKey(k)
    ensures k != MasterListKey && k != ""
  {
    assert k[10] == KeyPrepend[10] == '.';
    assert MasterListKey[10] == '-';
  }

  /** The key check and namespace prefix at the start of `_doWithLimit`. */
  function EncodeKey(key: string): (r: Result<string>)
    ensures r.Err? <==> Delimiter in key
    ensures r.Ok? ==> IsLimitKey(r.value) && r.value[|KeyPrepend|..] == key && r.value != MasterListKey
  {
    if Delimiter in key then Err(CommaInKey)
    else
      var k := KeyPrepend + key;
      assert k[|KeyPrepend|..] == key;
      LimitKeyIsNotMasterListKey(k);
      Ok(k)
  }

  /** A window of 0 means the default; any other window is used as given. */
  function EffectiveWindow(window: int): (r: int)
    ensures r != 0
    ensures window != 0 ==> r == window
    ensures window == 0 ==> r == DefaultTimeout
  {
    if window == 0 then DefaultTimeout else window
  }

  /** `_getMasterList`: an absent or empty value is the empty list, any
      other value is split on the delimiter. The result is never `[""]`, and
      a non-empty result joins back to the stored value. */
  function GetMasterList(s: Store): (r: seq<string>)
    ensures Fields(r) && r != [""]
    ensures r == [] <==> !Active(s, MasterListKey)
    ensures r != [] ==> Join(r) == s[MasterListKey]
  {
    if Active(s, MasterListKey) then Split(s[MasterListKey]) else []
  }

  /** Writing a list and reading it back gives the same list exactly when its
      elements hold no delimiter and it is not the single empty string. */
  lemma {:induction false} MasterListRoundTrip(s: Store, l: seq<string>)
    ensures GetMasterList(s[MasterListKey := Join(l)]) == l <==> Fields(l) && l != [""]
  {
    if Fields(l) && l != [""] && l != [] {
      SplitJoin(l);
    }
  }

  /** `_addToMasterList` on the store. */
  function AddToList(s: Store, key: string): (r: Store)
    ensures MasterListKey in r
    ensures r - {MasterListKey} == s - {MasterListKey}
  {
    s[MasterListKey := Join(PushIfAbsent(GetMasterList(s), key))]
  }

  /** Adding a key that holds no delimiter and is not empty makes the list
      read back as the old list with the key pushed if it was missing. */
  lemma AddToListContents(s: Store, key: string)
    requires key != "" && Delimiter !in key
    ensures GetMasterList(AddToList(s, key)) == PushIfAbsent(GetMasterList(s), key)
  {
    var l := PushIfAbsent(GetMasterList(s), key);
    assert Fields(l) by {
      forall i | 0 <= i < |l| ensures Delimiter !in l[i] {
        if i == |l| - 1 && key !in GetMasterList(s) { assert l[i] == key; }
      }
    }
    assert key in l;
    MasterListRoundTrip(s, l);
  }

  /** Adding the same key twice leaves the store as adding it once. */
  lemma AddToListIdempotent(s: Store, key: string)
    requires key != "" && Delimiter !in key
    ensures AddToList(AddToList(s, key), key) == AddToList(s, key)
  {
    AddToListContents(s, key);
  }

  /** `_removeFromMasterList` on the store. */
  function RemoveFromList(s: Store, key: string): (r: Store)
    ensures MasterListKey in r
    ensures r - {MasterListKey} == s - {MasterListKey}
  {
    s[MasterListKey := Join(RemoveFirst(GetMasterList(s), key))]
  }

  /** Removing a key makes the list read back as the old list with its first
      occurrence of the key taken out, unless what is left is the single
      empty string, which joins to "" and reads back as the empty list. */
  lemma RemoveFromListContents(s: Store, key: string)
    requires RemoveFirst(GetMasterList(s), key) != [""]
    ensures GetMasterList(RemoveFromList(s, key)) == RemoveFirst(GetMasterList(s), key)
  {
    var l := GetMasterList(s);
    var r := RemoveFirst(l, key);
    assert Fields(r) by {
      forall i | 0 <= i < |r| ensures Delimiter !in r[i] {
        assert r[i] in r;
      }
    }
    MasterListRoundTrip(s, r);
  }

  /** `_removeRateLimit`: the expiry step. The marker goes, the key's first
      entry in the master list goes, and no other key of the store changes. */
  function Expire(s: Store, key: string): (r: Store)
    ensures key != MasterListKey ==> key !in r
    ensures MasterListKey in r
    ensures r - {key, MasterListKey} == s - {key, MasterListKey}
    ensures forall k :: k != key && k != MasterListKey ==> (k in r <==> k in s) && (k in s ==> r[k] == s[k])
    ensures key != MasterListKey && RemoveFirst(GetMasterList(s), key) != [""] ==>
      GetMasterList(r) == RemoveFirst(GetMasterList(s), key)
  {
    var s1 := s - {key};
    assert s1 - {MasterListKey} == s - {key, MasterListKey};
    assert key != MasterListKey && RemoveFirst(GetMasterList(s), key) != [""] ==>
      GetMasterList(RemoveFromList(s1, key)) == RemoveFirst(GetMasterList(s), key) by {
      if key != MasterListKey && RemoveFirst(GetMasterList(s), key) != [""] {
        assert GetMasterList(s1) == GetMasterList(s);
        RemoveFromListContents(s1, key);
      }
    }
    RemoveFromList(s1, key)
  }

  /** `_doWithLimit` followed by `_addRateLimit`. A key with a comma fails
      and changes nothing. An inactive key gets the marker "1", enters the
      master list and has its expiry scheduled, and the callback runs once;
      an active key changes nothing and the callback does not run. */
  function Limit(s: Store, key: string, window: int): (r: Step)
    ensures r.result.Err? <==> Delimiter in key
    ensures r.result.Err? ==> r.store == s
    ensures r.result.Ok? ==> (r.result.value.Invoked? <==> !Active(s, KeyPrepend + key))
    ensures r.result == Ok(Skipped) ==> r.store == s
    ensures r.result.Ok? && r.result.value.Invoked? ==>
      var k := KeyPrepend + key;
      && r.result.value.expiry == Timer(k, EffectiveWindow(window))
      && k in r.store && r.store[k] == "1"
      && GetMasterList(r.store) == PushIfAbsent(GetMasterList(s), k)
      && r.store - {k, MasterListKey} == s - {k, MasterListKey}
  {
    match EncodeKey(key)
    case Err(e) => Step(Err(e), s)
    case Ok(k) =>
      if Active(s, k) then Step(Ok(Skipped), s)
      else
        var marked := s[k := "1"];
        assert GetMasterList(marked) == GetMasterList(s);
        AddToListContents(marked, k);
        var r := AddToList(marked, k);
        assert r[k] == "1" by { assert k in r - {MasterListKey}; }
        assert r - {k, MasterListKey} == s - {k, MasterListKey};
        Step(Ok(Invoked(Timer(k, EffectiveWindow(window)))), r)
  }

  /** The loop of `_removeAllRateLimits`: expire each key of `l` in order.
      Afterwards every listed key is absent, and every other key except the
      master list is as it was. */
  function SweepFrom(s: Store, l: seq<string>): (r: Store)
    ensures forall k :: k in l && k != MasterListKey ==> k !in r
    ensures forall k :: k !in l && k != MasterListKey ==> (k in r <==> k in s)
    ensures forall k :: k !in l && k != MasterListKey && k in s ==> r[k] == s[k]
  {
    if l == [] then s
    else
      var init, last := l[..|l| - 1], l[|l| - 1];
      assert l == init + [last];
      Expire(SweepFrom(s, init), last)
  }

  /** `_removeAllRateLimits`, the boot sweep: every key of the master list
      is removed from the store, and then the master list key itself. */
  function Sweep(s: Store): (r: Store)
    ensures forall k :: k in GetMasterList(s) ==> k !in r
    ensures MasterListKey !in r
    ensures forall k :: k !in GetMasterList(s) && k != MasterListKey ==> (k in r <==> k in s)
    ensures forall k :: k !in GetMasterList(s) && k != MasterListKey && k in s ==> r[k] == s[k]
  {
    SweepFrom(s, GetMasterList(s)) - {MasterListKey}
  }

  /** The store invariant: the master list has no duplicates, lists only
      rate-limit keys, and a rate-limit key is active exactly when it is in
      the master list. */
  ghost predicate Consistent(s: Store)
  {
    var l := GetMasterList(s);
    && NoDuplicates(l)
    && (forall i :: 0 <= i < |l| ==> IsLimitKey(l[i]))
    && (forall k :: IsLimitKey(k) ==> (Active(s, k) <==> k in l))
  }

  /** A fresh brain satisfies the invariant. */
  lemma EmptyConsistent()
    ensures Consistent(map[])
  {
  }

  /** The gate keeps the invariant. */
  lemma LimitPreservesConsistent(s: Store, key: string, window: int)
    requires Consistent(s)
    ensures Consistent(Limit(s, key, window).store)
  {
    var r := Limit(s, key, window);
    if r.result.Ok? && r.result.value.Invoked? {
      var k := KeyPrepend + key;
      var l := GetMasterList(s);
      var marked := s[k := "1"];
      assert GetMasterList(marked) == l by { LimitKeyIsNotMasterListKey(k); }
      AddToListContents(marked, k);
      assert k !in l;
      var l' := GetMasterList(r.store);
      assert l' == l + [k];
      forall i | 0 <= i < |l'| ensures IsLimitKey(l'[i]) {
        if i == |l| { assert l'[i] == k; } else { assert l'[i] == l[i]; }
      }
      forall k' | IsLimitKey(k') ensures Active(r.store, k') <==> k' in l' {
        LimitKeyIsNotMasterListKey(k');
        if k' != k {
          assert k' in r.store <==> k' in s by {
            assert k' in r.store <==> k' in r.store - {k, MasterListKey};
            assert k' in s <==> k' in s - {k, MasterListKey};
          }
          if k' in s { assert r.store[k'] == (r.store - {k, MasterListKey})[k']; }
        }
      }
    }
  }

  /** The expiry step keeps the invariant, for any key other than the
      master list key itself (which no encoded key can be). */
  lemma ExpirePreservesConsistent(s: Store, key: string)
    requires Consistent(s) && key != MasterListKey
    ensures Consistent(Expire(s, key))
  {
    var l := GetMasterList(s);
    var s1 := s - {key};
    assert GetMasterList(s1) == l;
    assert RemoveFirst(l, key) != [""] by {
      assert "" !in l by {
        forall i | 0 <= i < |l| ensures l[i] != "" { LimitKeyIsNotMasterListKey(l[i]); }
      }
    }
    RemoveFromListContents(s1, key);
    var r := Expire(s, key);
    var l' := GetMasterList(r);
    assert l' == RemoveFirst(l, key);
    RemoveFirstUnique(l, key);
    forall i | 0 <= i < |l'| ensures IsLimitKey(l'[i]) {
      assert l'[i] in l';
    }
    forall k' | IsLimitKey(k') ensures Active(r, k') <==> k' in l' {
      LimitKeyIsNotMasterListKey(k');
      if k' != key {
        assert k' in r <==> k' in s by {
          assert k' in r <==> k' in r - {key, MasterListKey};
          assert k' in s <==> k' in s - {key, MasterListKey};
        }
        if k' in s { assert r[k'] == (r - {key, MasterListKey})[k']; }
      }
    }
  }

  /** After the boot sweep of a consistent store no rate limit is active,
      the master list is empty, and the invariant holds. */
  lemma SweepClearsAll(s: Store)
    requires Consistent(s)
    ensures forall k :: IsLimitKey(k) ==> !Active(Sweep(s), k)
    ensures GetMasterList(Sweep(s)) == []
    ensures Consistent(Sweep(s))
  {
  }

  /** Calling the gate twice in a row with the same valid key runs the
      callback only the first time, whatever the second window is. */
  lemma LimitTwiceRunsOnce(s: Store, key: string, window: int, window': int)
    requires Delimiter !in key && !Active(s, KeyPrepend + key)
    ensures Limit(s, key, window).result.Ok? && Limit(s, key, window).result.value.Invoked?
    ensures var first := Limit(s, key, window).store;
            Limit(first, key, window') == Step(Ok(Skipped), first)
  {
  }

  /** Once the scheduled expiry of a key fires, the key is out of the master
      list, the store is still consistent, and the next call runs the
      callback again. */
  lemma ExpiryLiftsLimit(s: Store, key: string, window: int)
    requires Consistent(s) && Delimiter !in key
    ensures KeyPrepend + key !in GetMasterList(Expire(s, KeyPrepend + key))
    ensures Consistent(Expire(s, KeyPrepend + key))
    ensures Limit(Expire(s, KeyPrepend + key), key, window).result
            == Ok(Invoked(Timer(KeyPrepend + key, EffectiveWindow(window))))
  {
    var k := KeyPrepend + key;
    LimitKeyIsNotMasterListKey(k);
    ExpirePreservesConsistent(s, k);
  }
}
