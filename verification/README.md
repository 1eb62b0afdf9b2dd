# Rademacher Homepilot blinds: adapter and registry model

A Dafny model of the logic in the Homebridge platform plugin `index.js`. The
plugin exposes the roller blinds of a Rademacher Homepilot hub as Homebridge
window coverings. The model covers two pieces of that file, with every hub
reply treated as an input value instead of an HTTP call:

- **The per-blind adapter** (`RademacherBlindsAccessory`), in `blinds.dfy`.
  Its state is the device id, the `inverted` flag, `lastPosition`,
  `currentTargetPosition`, `currentPositionState`, and the last values it
  pushed into the CurrentPosition and PositionState characteristics. The
  constructor, `setTargetPosition`, `getTargetPosition`,
  `getCurrentPosition`, `getPositionState` and `getObstructionDetected` are
  pure functions from a state and a hub reply to a new state and a callback
  result. `setTargetPosition` is split in two steps. The issue step records
  the target, publishes the inferred direction and builds the
  `GOTO_POS_CMD` body. The completion step handles the PUT outcome.
  `Run` applies any sequence of calls.
- **The orientation transform** `reversePercentage`, in `percent.dfy`. With
  `inverted` set, every value exchanged with the hub passes through `Orient`.
- **Registry reconciliation**, in `registry.dfy`. This is the
  `didFinishLaunching` discovery handler, `configureAccessory`,
  `addAccessory` and `removeAccessory`. It acts on a map from UUID to either
  a restored raw record or a record bound to an adapter. The allow-list of
  eleven model codes, the display-name choice and the registrations made
  with the host are modelled. `Expected` gives a closed-form reference
  definition of what discovery leaves under each key.
- **`String.prototype.trim`**, in `text.dfy`. It decides whether a
  description is blank, using ECMAScript's whitespace and line-terminator
  characters.

Notes on the code's behaviour:

- `getPositionState` always answers `currentPositionState`, and nothing
  assigns that field after the constructor. So it answers STOPPED even
  while a move is pending. Only the published PositionState shows the
  inferred direction (`PositionStateAlwaysStopped`).
- Every transport failure is `RequestFailed`, on the PUT as on the GETs. A
  detail reply without a position is `PositionParseFailed`. These are the
  two error messages the code builds.
- The constructor reads `statusesMap.position`, while the getters read
  `statusesMap.Position`. The two are separate fields: `Device.position`
  and `DetailReply.position`.
- A failed move does not reset the published direction back to STOPPED.
- Discovery never removes a device that no longer appears in the hub's list.

## Model

| member | source | states |
|---|---|---|
| Percent.Reverse | index.js:242-246 | Reversal maps 0..100 into 0..100, and only values in 0..100 land there |
| Percent.ReverseInvolution | index.js:242-246 | Reversing twice gives back the original value |
| Percent.ReverseEndpoints | index.js:242-246 | 0 and 100 swap, and 50 is fixed |
| Percent.ReverseOnto | index.js:242-246 | Every value in 0..100 is the reversal of a value in 0..100, and reversal turns the order around |
| Percent.Orient | index.js:150 | The orientation transform keeps positions in 0..100 either way round |
| Percent.OrientInvolution | index.js:187 | Turning a hub value into the adapter's orientation and back gives the hub value, whether or not `inverted` is set |
| Text.TrimStart | index.js:66 | Leading trim removes only whitespace, and what remains is a suffix that does not start with whitespace |
| Text.TrimEnd | index.js:66 | Trailing trim removes only whitespace, and what remains is a prefix that does not end with whitespace |
| Text.Trim | index.js:66 | The result is a contiguous slice of the input, everything outside the slice is whitespace, and a non-empty result starts and ends with non-whitespace |
| Text.TrimEmptyIffBlank | index.js:66 | `description.trim()` is empty exactly when the description is all whitespace |
| Blinds.Init | index.js:106-115 | The constructor's last position is the hub's `position` (a missing one counts as 0) in the adapter's orientation; the target equals it; the state and the published state are STOPPED |
| Blinds.IssueSetTarget | index.js:141-157 | The target becomes `value`; the published state is INCREASING exactly when `value >= lastPosition`, otherwise DECREASING; the PUT body is `GOTO_POS_CMD` for this device, with a value that maps back to `value` and stays in 0..100; nothing else changes |
| Blinds.CompleteSetTarget | index.js:158-169 | A successful PUT publishes the target as the current position and STOPPED as the state, sets `lastPosition` to it and returns it. A failed PUT returns RequestFailed and changes nothing |
| Blinds.SetTargetPosition | index.js:141-169 | Setting `value` returns `value` on success, with `lastPosition` and the published position both `value` and the published state STOPPED. On failure `lastPosition` is kept and the published state stays the inferred direction |
| Blinds.ReadPosition | index.js:180-187 | A detail reply yields a position exactly when it carries one, and that position reverses to the hub's value when `inverted`. A transport failure gives RequestFailed and a missing position gives PositionParseFailed |
| Blinds.GetTargetPosition | index.js:172-194 | A read position becomes the target and nothing else. A transport failure gives RequestFailed, a missing position gives PositionParseFailed, and an error changes no state |
| Blinds.GetCurrentPosition | index.js:196-219 | A read position becomes both the target and `lastPosition`. A transport failure gives RequestFailed, a missing position gives PositionParseFailed, and an error changes no state |
| Blinds.GetObstructionDetected | index.js:225-240 | The answer is an error exactly when the GET failed, and it is true exactly when `hasErrors` is non-zero |
| Blinds.RunKeepsIdentity | index.js:141-223 | No sequence of calls changes the device id, the orientation or `currentPositionState` |
| Blinds.PositionStateAlwaysStopped | index.js:221-223 | After any sequence of calls on a freshly built adapter, `getPositionState` (modelled by `Blinds.GetPositionState`) answers STOPPED |
| Blinds.InitInRange | index.js:112-115 | A hub position in 0..100 gives an adapter whose positions are all in 0..100 |
| Blinds.RunStaysInRange | index.js:141-219 | Calls whose inputs are in 0..100 keep every held and published position in 0..100 |
| Blinds.MoveThenPollReadsTarget | index.js:150-213 | After a successful move to `value`, a poll of a hub reporting the raw value it was sent reads back `value` and changes nothing |
| Registry.UuidInjective | index.js:38 | `UuidOf`, standing for `UUIDGen.generate`, gives two device ids the same UUID exactly when they are equal |
| Registry.DisplayName | index.js:65-70 | The display name is the description unless the description is blank, and then it is the name |
| Registry.NewAccessory | index.js:72 | A new record is keyed by the UUID of its `did` and named as `DisplayName` chooses |
| Registry.ConfigureAccessory | index.js:58-60 | A restored record is stored raw under its UUID, no other key changes, and entries stay keyed by their own UUID |
| Registry.AddAccessory | index.js:62-78 | The device's UUID maps to a new record bound to a fresh adapter, that record is the one `Registered` event, and no other key changes |
| Registry.RemoveAccessory | index.js:80-88 | A given record's key is dropped and one `Unregistered` event is emitted for it, with no other key changed. A missing record does nothing |
| Registry.ConfigureThenRemove | index.js:58-88 | Restoring a record under an unused key and then removing it gives back the original registry |
| Registry.ReconcileDevice | index.js:37-46 | An allowed device's key gets an adapter over the existing record, or over a new one, and only the new one is registered. A disallowed device changes nothing, and no other key changes |
| Registry.Discover | index.js:31-34 | A reply without a device list leaves the registry unchanged and registers nothing |
| Registry.DiscoverAllEntry | index.js:36-48 | `Registry.DiscoverAll` models the discovery `forEach`, one device at a time in list order. After it, every key holds the entry the reference `Expected` gives. A key no allowed device claims is untouched. Otherwise the key holds an adapter over the newest claimant, bound to the existing record or to the first claimant's new record |
| Registry.DiscoverAllKeys | index.js:36-48 | After discovery a key is present exactly when it was present before or an allowed device claims it |
| Registry.DiscoverAllRegistersOnlyNew | index.js:39-42 | Every event of a discovery is a `Registered` event for a key that was absent before, carrying the record made for the first device claiming that key |
| Registry.DiscoverAllRegistersOnce | index.js:39-42 | No key is registered twice in one discovery, even when the list repeats a device |
| Registry.DiscoverAllRegistersAllNew | index.js:39-42 | Every previously absent key that an allowed device claims is registered |
| Registry.DiscoverKeepsUnclaimed | index.js:36-48 | A key that no device of the list claims with an allowed device number keeps its entry, or stays absent |
| Registry.DiscoverRebindsExisting | index.js:39-45 | A claimed key already in the registry keeps its record, and now holds a fresh adapter over the last device in the list that claims it |
| Registry.DiscoverAddsNew | index.js:39-42 | A claimed key absent before discovery now holds the record made for the first device that claims it, with an adapter over the last device that claims it |
| Registry.DiscoverKeepsWellKeyed | index.js:36-48 | Discovery keeps every entry stored under its own record's UUID |
| Registry.DisallowedDeviceIgnored | index.js:37 | Appending a device whose model code is not allowed leaves the discovery outcome unchanged |
| Registry.RestoredRecordRebound | index.js:39-45 | A record restored through `configureAccessory` is bound to an adapter over the device and keeps its record, and it is not registered again |
| Registry.RegisteredAtMostOnce | index.js:39-45 | No key is registered by both of two consecutive discoveries |

## Left out

- The HTTP calls, URLs and headers (index.js:28-29, 157-160, 177-178, 201-202, 228-229) are not modelled. Each reply is an input instead: `PutReply`, `DetailReply`, and an optional device list.
- A failed discovery GET (the `catch` at index.js:50-53) leaves the registry unchanged, like a reply without `devices`. Both are `Discover` with `None`.
- The Homebridge object model is left out: `Accessory`, `Service`, characteristic wiring, `updateReachability` and the context metadata copying (index.js:95-104, 117-138). Only the published CurrentPosition and PositionState values are kept.
- The initial `setValue` of CurrentPosition and TargetPosition reads `blind.position`, which is undefined on a descriptor, so it is left out. The published position starts as `None`. The initial ObstructionDetected value is not modelled either.
- The hub's `statusesMap.Position` can be `undefined` rather than `null`. Then `undefined === null` is false and the getters go on with an undefined value. This case is not modelled: `DetailReply.position` is an `Option<int>`, and `None` stands for a missing `statusesMap` or a `null` position.
- Non-integer, NaN or non-numeric JavaScript values for positions and `hasErrors` are not modelled: positions and `hasErrors` are unbounded integers.
- A descriptor without `statusesMap` or `description`, and a detail reply without `device`, make the source throw. These are not modelled. A throw inside a getter's `then` reaches its `catch`, which is the `RequestFailed` path.
- `UUIDGen.generate` is not modelled as a hash. It is the injective constructor `Uuid.FromDid`.
- Logging, the callback's second `false` argument on errors, and the error message texts have no counterpart beyond the two `Error` cases.
- Plugin bootstrap and platform registration (index.js:1-27) are not modelled.
- Concurrent in-flight calls on one adapter are not modelled: each get or set is an atomic issue/reply pair. `CompleteSetTarget` reads the target at reply time, as the source does, so `IssueSetTarget` and `CompleteSetTarget` can be composed with other calls in between.
