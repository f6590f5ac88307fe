# Keyed rate-limit gate

A model of the Hubot rate limiter in `scripts/rate-limiter.js`. The gate runs
a callback at most once per key until the key's limit expires. It keeps its
state in the robot's brain, a string-to-string store:

- a marker `"1"` under `"rate-limit." + key` while a key is limited;
- a master list under `rate-limit-master-list`: every limited key, joined
  with commas, so that the boot sweep can clear limits whose expiry timers
  were lost when the process stopped.

The project has three modules:

- `Delimited` (`delimited.dfy`): the JavaScript list and string operations
  the master list is built from (`join(',')`, `split(',')`, `indexOf`, push
  of a missing element, `splice(i, 1)`), with the round trip between join and
  split.
- `Limits` (`limits.dfy`): the limiter as pure functions from one store to
  the next (`Limit`, `Expire`, `Sweep` and the master-list steps), the store
  invariant `Consistent`, and the lemmas that every step keeps it.
  `Consistent` means three things: the master list has no duplicates, it
  lists only rate-limit keys, and a rate-limit key holds a marker exactly
  when it is in the list.
- `RateLimiter` (`limiter.dfy`): the class `RateLimiter`. Its field `store`
  is the brain. Its methods change the store step by step, as the script
  does, and each is proved to reach the state its `Limits` function gives.

Modelling choices:

- The callback is not a parameter. `DoWithLimit` returns `Ok(Invoked(timer))`
  when the script would run the callback once, and `Ok(Skipped)` when it
  would not.
- The `throw` for a key containing a comma becomes `Err(CommaInKey)`, with
  the store unchanged.
- `setTimeout` becomes the returned `Timer(key, delayMs)`. A timer firing is
  a call of `RemoveRateLimit(timer.key)`. The boot sweep is a call of
  `RemoveAllRateLimits`.
- A key is active when it holds a non-empty string. This is what
  `brain.get(key) || false` means for string values.

The code accepts an empty raw key, which becomes `"rate-limit."`. It also
uses any window other than 0 as given, negative ones included. The model does
the same.

## Model

| member | source | states |
|---|---|---|
| `Delimited.Split` | scripts/rate-limiter.js:133 | `split(',')` always yields at least one field, no field contains a comma, and joining the fields gives back the original string |
| `Delimited.JoinIsEmpty` | scripts/rate-limiter.js:109 | `join(',')` gives the empty string exactly for `[]` and `[""]`; that is why the read at line 132 maps both back to `[]` |
| `Delimited.SplitJoin` | scripts/rate-limiter.js:109-133 | for a non-empty list whose elements contain no comma, splitting its comma-join gives the list back |
| `Delimited.IndexOf` | scripts/rate-limiter.js:102 | `indexOf` is -1 exactly when the element is absent; otherwise it is the position of the first occurrence |
| `Delimited.PushIfAbsent` | scripts/rate-limiter.js:102-106 | a key already present leaves the list unchanged (same length, old list as prefix); a missing key makes the list exactly one longer with the old list as prefix, so it goes at the end; the elements are the old ones plus the key; a duplicate-free list stays duplicate-free |
| `Delimited.RemoveFirst` | scripts/rate-limiter.js:116-120 | a list without the key is unchanged; otherwise the result is one shorter; every other element keeps its membership |
| `Delimited.RemoveFirstIsSplice` | scripts/rate-limiter.js:116-120 | removing the first occurrence equals `splice(indexOf(key), 1)`: the elements before and after it keep their order |
| `Delimited.RemoveFirstAt` | scripts/rate-limiter.js:116-120 | given the position of the first occurrence, removing it leaves exactly the elements before and after that position, in order |
| `Delimited.RemoveFirstUnique` | scripts/rate-limiter.js:116-120 | in a duplicate-free list the removal takes the key out entirely, and the list stays duplicate-free |
| `Limits.ConstantsBlock` | scripts/rate-limiter.js:24-28 | the constants `KeyPrepend`, `MasterListKey` and `DefaultTimeout`: the default window is five minutes in milliseconds, the prefix is non-empty and comma-free, and the master-list key is not in the prefixed namespace |
| `Limits.MarkerIsActive` | scripts/rate-limiter.js:73-77 | `Active`, the truthiness test of `brain.get(key)`: the marker `"1"` makes a key active, and a removed or empty value makes it inactive |
| `Limits.LimitKeyIsNotMasterListKey` | scripts/rate-limiter.js:25-26 | no prefixed key is empty or equal to the master-list key, so markers and the list never collide |
| `Limits.EncodeKey` | scripts/rate-limiter.js:34-40 | a key fails exactly when it contains a comma; otherwise the storage key is a rate-limit key, stripping the prefix gives back the raw key, and it is not the master-list key |
| `Limits.EffectiveWindow` | scripts/rate-limiter.js:43-45 | a window of 0 becomes 300000 ms; any other window is kept; the result is never 0 |
| `Limits.GetMasterList` | scripts/rate-limiter.js:125-136 | an absent or empty stored value reads as `[]`; any other value reads as comma-free fields that join back to it; the result is never `[""]` |
| `Limits.MasterListRoundTrip` | scripts/rate-limiter.js:109-135 | a written list reads back unchanged exactly when its elements contain no comma and it is not `[""]` |
| `Limits.AddToList` | scripts/rate-limiter.js:97-110 | adding to the master list writes the master-list key and no other key |
| `Limits.AddToListContents` | scripts/rate-limiter.js:97-110 | for a non-empty comma-free key, the list reads back as the old list with the key appended if it was missing |
| `Limits.AddToListIdempotent` | scripts/rate-limiter.js:102-109 | adding the same non-empty comma-free key twice leaves the store exactly as adding it once |
| `Limits.RemoveFromList` | scripts/rate-limiter.js:112-123 | removing from the master list writes the master-list key and no other key |
| `Limits.RemoveFromListContents` | scripts/rate-limiter.js:112-123 | the list reads back with the first occurrence of the key removed, whenever what is left is not the single empty string (which joins to "" and reads back as the empty list) |
| `Limits.Expire` | scripts/rate-limiter.js:92-95 | removing a limit deletes the key's marker and rewrites the master list; no other key changes; unless what is left is the single empty string, the list reads back with the key's first occurrence removed |
| `Limits.Limit` | scripts/rate-limiter.js:30-77 | a comma in the key is an error with the store unchanged; an active key is skipped with the store unchanged; for an inactive key the callback runs, the key gets marker `"1"`, and the master list reads back as the old list with the key appended if missing; an expiry is scheduled for the prefixed key after the effective window, and no other key changes |
| `Limits.SweepFrom` | scripts/rate-limiter.js:85-87 | the `forEach` of removals, in list order, leaves every listed key absent and every other key except the master list as it was |
| `Limits.Sweep` | scripts/rate-limiter.js:79-90 | after the sweep every key of the old master list and the master-list key itself are absent; other keys are untouched |
| `Limits.EmptyConsistent` | scripts/rate-limiter.js:16 | a fresh, empty brain satisfies the invariant |
| `Limits.LimitPreservesConsistent` | scripts/rate-limiter.js:47-71 | the gate keeps the invariant: no duplicates in the list, only rate-limit keys, marker exactly when listed |
| `Limits.ExpirePreservesConsistent` | scripts/rate-limiter.js:92-95 | the expiry step keeps the invariant for any key other than the master-list key |
| `Limits.SweepClearsAll` | scripts/rate-limiter.js:139-150 | after the boot sweep of a consistent store no rate limit is active, the master list is empty and the invariant holds |
| `Limits.LimitTwiceRunsOnce` | scripts/rate-limiter.js:47-64 | with an inactive valid key, the first call runs the callback and an immediate second call with the same key is skipped, leaving the store as the first call left it |
| `Limits.ExpiryLiftsLimit` | scripts/rate-limiter.js:68-70 | in a consistent store, once the expiry of a valid key fires, the key is out of the master list, the store stays consistent, and the next call runs the callback and schedules a new expiry |
| `RateLimiter.RateLimiter.constructor` | scripts/rate-limiter.js:16 | the limiter works on the brain it is given |
| `RateLimiter.RateLimiter.CheckRateLimit` | scripts/rate-limiter.js:73-77 | the result is true exactly when the key holds a non-empty value |
| `RateLimiter.RateLimiter.AddToMasterList` | scripts/rate-limiter.js:97-110 | the `indexOf`/`push`/`join` steps produce the store that `AddToList` gives |
| `RateLimiter.RateLimiter.RemoveFromMasterList` | scripts/rate-limiter.js:112-123 | the `indexOf`/`splice`/`join` steps produce the store that `RemoveFromList` gives |
| `RateLimiter.RateLimiter.AddRateLimit` | scripts/rate-limiter.js:58-71 | sets the marker `"1"`, then adds the key to the master list; returns the expiry scheduled for the key after the given window |
| `RateLimiter.RateLimiter.DoWithLimit` | scripts/rate-limiter.js:30-56 | outcome and new store are those of `Limit`; a consistent store stays consistent |
| `RateLimiter.RateLimiter.RemoveRateLimit` | scripts/rate-limiter.js:92-95 | the new store is that of `Expire`; a consistent store stays consistent |
| `RateLimiter.RateLimiter.RemoveAllRateLimits` | scripts/rate-limiter.js:79-90 | the loop over the master list produces the store that `Sweep` gives; a consistent store ends consistent with an empty master list |

## Left out

- Timers: the `setTimeout` at scripts/rate-limiter.js:68-70 is not run. Its effect is the returned `Timer`; its firing is an explicit `RemoveRateLimit` call. Real time cannot be modelled here.
- The boot sweep's 5000 ms delay (scripts/rate-limiter.js:148-150). The sweep is an explicit `RemoveAllRateLimits` call.
- The event wiring `robot.on('rate-limit', …)` (scripts/rate-limiter.js:18-20). This is host dispatch.
- The `console.log` in `_checkRateLimit`. It is output only and does not change state.
- The callback itself. Its running is reported as the outcome `Invoked`; what it does is the caller's business.
- Persistence, initialisation and failure of the brain. The brain is an in-memory map whose get, set and remove always succeed.
- Interleaving of expiry callbacks with other calls. Every operation is atomic and the calls are sequential.
- Non-string values and JavaScript truthiness beyond strings. Windows are integers; non-integer numbers, and how `setTimeout` treats negative delays or delays above 2147483647 ms (which Node clamps to 1 ms, so a window above about 24.8 days lifts almost at once), are not modelled.
