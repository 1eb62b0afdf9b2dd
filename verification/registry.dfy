/** The platform's accessory registry and its reconciliation with the hub's
    discovery list: restored records, newly added accessories, rebinding of
    known ones to fresh adapters, and removal. */
module Registry {
  import opened Wrappers
  import opened Text
  import opened Hub
  import Blinds

  /** An accessory UUID, identified by the device id it was derived from. */
  datatype Uuid = FromDid(did: string)

  /** `UUIDGen.generate(did)`. The hashing itself is not modelled; what the
      registry relies on is that the UUID is a function of `did` alone and
      one-to-one (`UuidInjective`). */
  function UuidOf(did: string): Uuid {
    FromDid(did)
  }

  lemma UuidInjective(a: string, b: string)
    ensures UuidOf(a) == UuidOf(b) <==> a == b
  {
  }

  /** A host-platform accessory record. */
  datatype Accessory = Accessory(displayName: string, uuid: Uuid)

  /** A registry entry: a record restored from the host's cache and not yet
      bound, or a record bound to a live adapter. */
  datatype Entry =
    | Raw(acc: Accessory)
    | Adapter(acc: Accessory, blind: Blinds.Blind)

  type Registry = map<Uuid, Entry>

  function Lookup(reg: Registry, k: Uuid): Option<Entry> {
    if k in reg then Some(reg[k]) else None
  }

  /** Every entry is stored under its own record's UUID. */
  predicate WellKeyed(reg: Registry) {
    forall k :: k in reg ==> reg[k].acc.uuid == k
  }

  /** The hardware model codes of the actuators the platform handles. */
  const AllowList: seq<string> := [
    "27601565", "35000864", "14234511", "35000662", "36500172", "36500572_A",
    "16234511_A", "16234511_S", "45059071", "31500162", "23602075"]

  predicate Allowed(d: Device) {
    d.deviceNumber in AllowList
  }

  /** The device's description, unless it is blank, then its name. */
  function DisplayName(d: Device): (name: string)
    ensures IsBlank(d.description) ==> name == d.name
    ensures !IsBlank(d.description) ==> name == d.description
  {
    TrimEmptyIffBlank(d.description);
    if Trim(d.description) == "" then d.name else d.description
  }

  /** The entry binding record `acc` to a fresh adapter built from `d`. */
  function Bind(acc: Accessory, d: Device, inverted: bool): Entry {
    Adapter(acc, Blinds.Init(d, inverted))
  }

  /** The record `addAccessory` creates for a device. */
  function NewAccessory(d: Device): (acc: Accessory)
    ensures acc.uuid == UuidOf(d.did)
    ensures IsBlank(d.description) ==> acc.displayName == d.name
    ensures !IsBlank(d.description) ==> acc.displayName == d.description
  {
    Accessory(DisplayName(d), UuidOf(d.did))
  }

  /** A call into the host platform's accessory registration API. */
  datatype Event = Registered(acc: Accessory) | Unregistered(acc: Accessory)

  /** The registry after an operation, and the host registration calls it
      made, in order. */
  datatype Outcome = Outcome(registry: Registry, events: seq<Event>)

  /** `configureAccessory`: store a restored record under its UUID. */
  function ConfigureAccessory(reg: Registry, acc: Accessory): (r: Registry)
    ensures acc.uuid in r && r[acc.uuid] == Raw(acc)
    ensures forall k :: k != acc.uuid ==> Lookup(r, k) == Lookup(reg, k)
    ensures WellKeyed(reg) ==> WellKeyed(r)
  {
    reg[acc.uuid := Raw(acc)]
  }

  /** `addAccessory`: create a record for the device, bind it to a fresh
      adapter and register it. An entry already under that UUID is replaced. */
  function AddAccessory(reg: Registry, d: Device, inverted: bool): (r: Outcome)
    ensures UuidOf(d.did) in r.registry
    ensures r.registry[UuidOf(d.did)] == Bind(NewAccessory(d), d, inverted)
    ensures forall k :: k != UuidOf(d.did) ==> Lookup(r.registry, k) == Lookup(reg, k)
    ensures r.events == [Registered(NewAccessory(d))]
  {
    var acc := NewAccessory(d);
    Outcome(reg[acc.uuid := Bind(acc, d, inverted)], [Registered(acc)])
  }

  /** `removeAccessory`: drop the record's entry (if any) and unregister it.
      A missing record does nothing. */
  function RemoveAccessory(reg: Registry, acc: Option<Accessory>): (r: Outcome)
    ensures acc.None? ==> r.registry == reg && r.events == []
    ensures acc.Some? ==>
      && acc.value.uuid !in r.registry
      && (forall k :: k != acc.value.uuid ==> Lookup(r.registry, k) == Lookup(reg, k))
      && r.events == [Unregistered(acc.value)]
    ensures WellKeyed(reg) ==> WellKeyed(r.registry)
  {
    match acc
    case None => Outcome(reg, [])
    case Some(a) => Outcome(reg - {a.uuid}, [Unregistered(a)])
  }

  /** Restoring a record that was not there and removing it again gives the
      registry back. */
  lemma ConfigureThenRemove(reg: Registry, acc: Accessory)
    requires acc.uuid !in reg
    ensures RemoveAccessory(ConfigureAccessory(reg, acc), Some(acc)).registry == reg
  {
  }

  /** One device of the discovery list: an allowed device with an unseen
      UUID is added and registered; one with a known UUID gets a fresh adapter
      over the record already there, without registering again; anything
      else leaves the registry alone. */
  function ReconcileDevice(reg: Registry, d: Device, inverted: bool): (r: Outcome)
    ensures Claims(d, UuidOf(d.did)) ==>
      var k := UuidOf(d.did);
      && k in r.registry
      && r.registry[k] == Bind(if k in reg then reg[k].acc else NewAccessory(d), d, inverted)
      && r.events == (if k in reg then [] else [Registered(NewAccessory(d))])
    ensures forall k :: !Claims(d, k) ==> Lookup(r.registry, k) == Lookup(reg, k)
    ensures !Allowed(d) ==> r.events == []
  {
    if !Allowed(d) then
      Outcome(reg, [])
    else
      var k := UuidOf(d.did);
      if k !in reg then
        AddAccessory(reg, d, inverted)
      else
        Outcome(reg[k := Bind(reg[k].acc, d, inverted)], [])
  }

  /** The devices of the list, one after the other. */
  function DiscoverAll(reg: Registry, ds: seq<Device>, inverted: bool): Outcome
    decreases |ds|
  {
    if |ds| == 0 then
      Outcome(reg, [])
    else
      var prev := DiscoverAll(reg, ds[..|ds| - 1], inverted);
      var last := ReconcileDevice(prev.registry, ds[|ds| - 1], inverted);
      Outcome(last.registry, prev.events + last.events)
  }

  /** The discovery handler; `devices` is `None` when the reply has no
      device list. */
  function Discover(reg: Registry, devices: Option<seq<Device>>, inverted: bool): (r: Outcome)
    ensures devices.None? ==> r.registry == reg && r.events == []
  {
    match devices
    case None => Outcome(reg, [])
    case Some(ds) => DiscoverAll(reg, ds, inverted)
  }

  // Reference definition of what discovery does to each key.

  /** `d` is an allowed device whose UUID is `k`. */
  predicate Claims(d: Device, k: Uuid) {
    Allowed(d) && UuidOf(d.did) == k
  }

  /** The devices of `ds` that claim `k`, in list order. */
  function Claimants(ds: seq<Device>, k: Uuid): seq<Device>
    decreases |ds|
  {
    if |ds| == 0 then []
    else Claimants(ds[..|ds| - 1], k) + (if Claims(ds[|ds| - 1], k) then [ds[|ds| - 1]] else [])
  }

  /** The entry discovery should leave under `k`: untouched when no allowed
      device claims it; otherwise an adapter over the newest claimant, bound
      to the record already there or, for a new key, to the record made for
      the first claimant. */
  function Expected(reg: Registry, ds: seq<Device>, inverted: bool, k: Uuid): Option<Entry> {
    var m := Claimants(ds, k);
    if |m| == 0 then
      Lookup(reg, k)
    else
      var acc := if k in reg then reg[k].acc else NewAccessory(m[0]);
      Some(Bind(acc, m[|m| - 1], inverted))
  }

  /** `Claimants` keeps exactly the devices of the list that claim `k`. */
  lemma {:induction false} ClaimantsExactly(ds: seq<Device>, k: Uuid)
    ensures |Claimants(ds, k)| <= |ds|
    ensures forall i :: 0 <= i < |Claimants(ds, k)| ==> Claimants(ds, k)[i] in ds && Claims(Claimants(ds, k)[i], k)
    ensures forall d :: d in ds && Claims(d, k) ==> d in Claimants(ds, k)
    decreases |ds|
  {
    if |ds| > 0 {
      var pre, last := ds[..|ds| - 1], ds[|ds| - 1];
      ClaimantsExactly(pre, k);
      assert ds == pre + [last];
    }
  }

  lemma ClaimantsSnoc(ds: seq<Device>, k: Uuid)
    requires |ds| > 0
    ensures Claimants(ds, k) == Claimants(ds[..|ds| - 1], k) + (if Claims(ds[|ds| - 1], k) then [ds[|ds| - 1]] else [])
  {
  }

  /** The entry a claiming device leaves under its key, given the entry
      there before: an adapter over the device, keeping the earlier record. */
  function Rebound(before: Option<Entry>, d: Device, inverted: bool): Option<Entry> {
    Some(Bind(if before.Some? then before.value.acc else NewAccessory(d), d, inverted))
  }

  lemma ReconcileLookup(reg: Registry, d: Device, inverted: bool, k: Uuid)
    ensures Lookup(ReconcileDevice(reg, d, inverted).registry, k)
         == if Claims(d, k) then Rebound(Lookup(reg, k), d, inverted) else Lookup(reg, k)
  {
  }

  lemma ExpectedSnoc(reg: Registry, ds: seq<Device>, inverted: bool, k: Uuid)
    requires |ds| > 0
    ensures
      var pre := ds[..|ds| - 1];
      var d := ds[|ds| - 1];
      Expected(reg, ds, inverted, k)
        == if Claims(d, k) then Rebound(Expected(reg, pre, inverted, k), d, inverted)
           else Expected(reg, pre, inverted, k)
  {
    ClaimantsSnoc(ds, k);
  }

  lemma {:induction false} DiscoverAllEntry(reg: Registry, ds: seq<Device>, inverted: bool, k: Uuid)
    ensures Lookup(DiscoverAll(reg, ds, inverted).registry, k) == Expected(reg, ds, inverted, k)
    decreases |ds|
  {
    if |ds| > 0 {
      var pre, d := ds[..|ds| - 1], ds[|ds| - 1];
      DiscoverAllEntry(reg, pre, inverted, k);
      ReconcileLookup(DiscoverAll(reg, pre, inverted).registry, d, inverted, k);
      ExpectedSnoc(reg, ds, inverted, k);
    }
  }

  /** The UUIDs the events are about. */
  function EventUuids(events: seq<Event>): set<Uuid> {
    set e | e in events :: e.acc.uuid
  }

  /** After discovery a key is present exactly when it was before or some
      allowed device claims it. */
  lemma {:induction false} DiscoverAllKeys(reg: Registry, ds: seq<Device>, inverted: bool, k: Uuid)
    ensures k in DiscoverAll(reg, ds, inverted).registry <==> k in reg || |Claimants(ds, k)| > 0
  {
    DiscoverAllEntry(reg, ds, inverted, k);
  }

  /** Every record discovery registers is for a UUID the registry did not
      hold, and is the record made for the first device claiming it. */
  predicate RegistersOnlyNew(reg: Registry, ds: seq<Device>, ev: seq<Event>) {
    forall i :: 0 <= i < |ev| ==>
      && ev[i].acc.uuid !in reg
      && |Claimants(ds, ev[i].acc.uuid)| > 0
      && ev[i] == Registered(NewAccessory(Claimants(ds, ev[i].acc.uuid)[0]))
  }

  /** No UUID is registered twice. */
  predicate RegistersOnce(ev: seq<Event>) {
    forall i, j :: 0 <= i < j < |ev| ==> ev[i].acc.uuid != ev[j].acc.uuid
  }

  /** Every UUID new to the registry that an allowed device claims is registered. */
  ghost predicate RegistersAllNew(reg: Registry, ds: seq<Device>, ev: seq<Event>) {
    forall k :: k !in reg && |Claimants(ds, k)| > 0 ==> k in EventUuids(ev)
  }

  /** Events of the last device of the list. */
  lemma DiscoverAllStep(reg: Registry, ds: seq<Device>, inverted: bool)
    requires |ds| > 0
    ensures
      var pre := ds[..|ds| - 1];
      var d := ds[|ds| - 1];
      var prev := DiscoverAll(reg, pre, inverted);
      var ev := DiscoverAll(reg, ds, inverted).events;
      var dk := UuidOf(d.did);
      && (Allowed(d) && dk !in prev.registry ==>
            && dk !in reg && |Claimants(pre, dk)| == 0
            && ev == prev.events + [Registered(NewAccessory(d))])
      && (!(Allowed(d) && dk !in prev.registry) ==> ev == prev.events)
  {
    var pre, d := ds[..|ds| - 1], ds[|ds| - 1];
    DiscoverAllKeys(reg, pre, inverted, UuidOf(d.did));
  }

  lemma {:induction false} DiscoverAllRegistersOnlyNew(reg: Registry, ds: seq<Device>, inverted: bool)
    ensures RegistersOnlyNew(reg, ds, DiscoverAll(reg, ds, inverted).events)
    decreases |ds|
  {
    if |ds| > 0 {
      var pre, d := ds[..|ds| - 1], ds[|ds| - 1];
      DiscoverAllRegistersOnlyNew(reg, pre, inverted);
      DiscoverAllStep(reg, ds, inverted);
      var prev := DiscoverAll(reg, pre, inverted);
      var dk := UuidOf(d.did);
      var ev0 := prev.events;
      forall i | 0 <= i < |ev0|
        ensures ev0[i].acc.uuid !in reg
        ensures |Claimants(ds, ev0[i].acc.uuid)| > 0
        ensures ev0[i] == Registered(NewAccessory(Claimants(ds, ev0[i].acc.uuid)[0]))
      {
        ClaimantsSnoc(ds, ev0[i].acc.uuid);
      }
      if Allowed(d) && dk !in prev.registry {
        ClaimantsSnoc(ds, dk);
        assert Claimants(ds, dk) == [d];
        OnlyNewSnoc(reg, ds, ev0, Registered(NewAccessory(d)));
      }
    }
  }

  /** Appending a registration of a new, claimed key keeps `RegistersOnlyNew`. */
  lemma OnlyNewSnoc(reg: Registry, ds: seq<Device>, ev: seq<Event>, e: Event)
    requires RegistersOnlyNew(reg, ds, ev)
    requires e.acc.uuid !in reg && |Claimants(ds, e.acc.uuid)| > 0
    requires e == Registered(NewAccessory(Claimants(ds, e.acc.uuid)[0]))
    ensures RegistersOnlyNew(reg, ds, ev + [e])
  {
    var ev' := ev + [e];
    forall i | 0 <= i < |ev'|
      ensures ev'[i].acc.uuid !in reg
      ensures |Claimants(ds, ev'[i].acc.uuid)| > 0
      ensures ev'[i] == Registered(NewAccessory(Claimants(ds, ev'[i].acc.uuid)[0]))
    {
      if i < |ev| {
        assert ev'[i] == ev[i];
      }
    }
  }

  lemma RegistersOnceSnoc(ev: seq<Event>, e: Event)
    requires RegistersOnce(ev)
    requires forall i :: 0 <= i < |ev| ==> ev[i].acc.uuid != e.acc.uuid
    ensures RegistersOnce(ev + [e])
  {
  }

  lemma {:induction false} DiscoverAllRegistersOnce(reg: Registry, ds: seq<Device>, inverted: bool)
    ensures RegistersOnce(DiscoverAll(reg, ds, inverted).events)
    decreases |ds|
  {
    if |ds| > 0 {
      var pre, d := ds[..|ds| - 1], ds[|ds| - 1];
      DiscoverAllRegistersOnce(reg, pre, inverted);
      DiscoverAllStep(reg, ds, inverted);
      var prev := DiscoverAll(reg, pre, inverted);
      var dk := UuidOf(d.did);
      if Allowed(d) && dk !in prev.registry {
        var ev0 := prev.events;
        DiscoverAllRegistersOnlyNew(reg, pre, inverted);
        forall i | 0 <= i < |ev0|
          ensures ev0[i].acc.uuid != dk
        {
          assert |Claimants(pre, ev0[i].acc.uuid)| > 0;
        }
        RegistersOnceSnoc(ev0, Registered(NewAccessory(d)));
      }
    }
  }

  /** Appending an event adds exactly its UUID. */
  lemma EventUuidsSnoc(ev: seq<Event>, e: Event)
    ensures EventUuids(ev + [e]) == EventUuids(ev) + {e.acc.uuid}
  {
    assert forall x :: x in ev + [e] <==> x in ev || x == e;
  }

  lemma {:induction false} DiscoverAllRegistersAllNew(reg: Registry, ds: seq<Device>, inverted: bool)
    ensures RegistersAllNew(reg, ds, DiscoverAll(reg, ds, inverted).events)
    decreases |ds|
  {
    if |ds| > 0 {
      var pre, d := ds[..|ds| - 1], ds[|ds| - 1];
      DiscoverAllRegistersAllNew(reg, pre, inverted);
      DiscoverAllStep(reg, ds, inverted);
      var prev := DiscoverAll(reg, pre, inverted);
      var dk := UuidOf(d.did);
      var uuids := EventUuids(DiscoverAll(reg, ds, inverted).events);
      if Allowed(d) && dk !in prev.registry {
        EventUuidsSnoc(prev.events, Registered(NewAccessory(d)));
        assert uuids == EventUuids(prev.events) + {dk};
      } else {
        assert uuids == EventUuids(prev.events);
      }
      forall k | k !in reg && |Claimants(ds, k)| > 0
        ensures k in uuids
      {
        ClaimantsSnoc(ds, k);
        if |Claimants(pre, k)| == 0 {
          DiscoverAllKeys(reg, pre, inverted, k);
        }
      }
    }
  }

  /** A registry agreeing with `Expected` on an unclaimed key keeps it. */
  lemma ExpectedUnclaimed(reg: Registry, ds: seq<Device>, inverted: bool, k: Uuid, r: Registry)
    requires Lookup(r, k) == Expected(reg, ds, inverted, k)
    requires |Claimants(ds, k)| == 0
    ensures Lookup(r, k) == Lookup(reg, k)
  {
  }

  /** A registry agreeing with `Expected` on a claimed, present key rebinds it. */
  lemma ExpectedExisting(reg: Registry, ds: seq<Device>, inverted: bool, k: Uuid, r: Registry)
    requires Lookup(r, k) == Expected(reg, ds, inverted, k)
    requires k in reg && |Claimants(ds, k)| > 0
    ensures var m := Claimants(ds, k); k in r && r[k] == Bind(reg[k].acc, m[|m| - 1], inverted)
  {
  }

  /** A registry agreeing with `Expected` on a claimed, absent key adds it. */
  lemma ExpectedNew(reg: Registry, ds: seq<Device>, inverted: bool, k: Uuid, r: Registry)
    requires Lookup(r, k) == Expected(reg, ds, inverted, k)
    requires k !in reg && |Claimants(ds, k)| > 0
    ensures var m := Claimants(ds, k); k in r && r[k] == Bind(NewAccessory(m[0]), m[|m| - 1], inverted)
  {
  }

  /** A key that no allowed device of the list claims keeps its entry, or
      stays absent. */
  lemma DiscoverKeepsUnclaimed(reg: Registry, ds: seq<Device>, inverted: bool)
    ensures
      var r := Discover(reg, Some(ds), inverted).registry;
      forall k :: |Claimants(ds, k)| == 0 ==> Lookup(r, k) == Lookup(reg, k)
  {
    assert Discover(reg, Some(ds), inverted) == DiscoverAll(reg, ds, inverted);
    var r := DiscoverAll(reg, ds, inverted).registry;
    forall k | |Claimants(ds, k)| == 0
      ensures Lookup(r, k) == Lookup(reg, k)
    {
      DiscoverAllEntry(reg, ds, inverted, k);
      ExpectedUnclaimed(reg, ds, inverted, k, r);
    }
  }

  /** A claimed key already present is rebound to an adapter over the newest
      claimant and keeps its record, restored or bound alike. */
  lemma DiscoverRebindsExisting(reg: Registry, ds: seq<Device>, inverted: bool)
    ensures
      var r := Discover(reg, Some(ds), inverted).registry;
      forall k :: k in reg && |Claimants(ds, k)| > 0 ==>
        var m := Claimants(ds, k);
        k in r && r[k] == Bind(reg[k].acc, m[|m| - 1], inverted)
  {
    assert Discover(reg, Some(ds), inverted) == DiscoverAll(reg, ds, inverted);
    var r := DiscoverAll(reg, ds, inverted).registry;
    forall k | k in reg && |Claimants(ds, k)| > 0
      ensures var m := Claimants(ds, k); k in r && r[k] == Bind(reg[k].acc, m[|m| - 1], inverted)
    {
      DiscoverAllEntry(reg, ds, inverted, k);
      ExpectedExisting(reg, ds, inverted, k, r);
    }
  }

  /** A claimed key not present gets the record made for the first claimant,
      bound to an adapter over the newest one. */
  lemma DiscoverAddsNew(reg: Registry, ds: seq<Device>, inverted: bool)
    ensures
      var r := Discover(reg, Some(ds), inverted).registry;
      forall k :: k !in reg && |Claimants(ds, k)| > 0 ==>
        var m := Claimants(ds, k);
        k in r && r[k] == Bind(NewAccessory(m[0]), m[|m| - 1], inverted)
  {
    assert Discover(reg, Some(ds), inverted) == DiscoverAll(reg, ds, inverted);
    var r := DiscoverAll(reg, ds, inverted).registry;
    forall k | k !in reg && |Claimants(ds, k)| > 0
      ensures var m := Claimants(ds, k); k in r && r[k] == Bind(NewAccessory(m[0]), m[|m| - 1], inverted)
    {
      DiscoverAllEntry(reg, ds, inverted, k);
      ExpectedNew(reg, ds, inverted, k, r);
    }
  }

  /** Discovery keeps every entry under its own record's UUID. */
  lemma DiscoverKeepsWellKeyed(reg: Registry, devices: Option<seq<Device>>, inverted: bool)
    requires WellKeyed(reg)
    ensures WellKeyed(Discover(reg, devices, inverted).registry)
  {
    if devices.Some? {
      var ds := devices.value;
      assert Discover(reg, devices, inverted) == DiscoverAll(reg, ds, inverted);
      var r := DiscoverAll(reg, ds, inverted).registry;
      forall k | k in r
        ensures r[k].acc.uuid == k
      {
        DiscoverAllEntry(reg, ds, inverted, k);
        var m := Claimants(ds, k);
        if |m| > 0 && k !in reg {
          ClaimantsExactly(ds, k);
          assert Claims(m[0], k);
        }
      }
    }
  }

  /** A device whose model code is not allowed leaves no trace. */
  lemma DisallowedDeviceIgnored(reg: Registry, ds: seq<Device>, d: Device, inverted: bool)
    requires !Allowed(d)
    ensures Discover(reg, Some(ds + [d]), inverted) == Discover(reg, Some(ds), inverted)
  {
  }

  /** A record restored from the cache is rebound to an adapter over the
      device, keeping the record, and is not registered again. */
  lemma RestoredRecordRebound(reg: Registry, acc: Accessory, d: Device, inverted: bool)
    requires Allowed(d) && acc.uuid == UuidOf(d.did)
    ensures
      var r := Discover(ConfigureAccessory(reg, acc), Some([d]), inverted);
      && r.registry == reg[acc.uuid := Bind(acc, d, inverted)]
      && r.events == []
  {
    var restored := ConfigureAccessory(reg, acc);
    assert [d][..0] == [];
    assert DiscoverAll(restored, [d], inverted) == ReconcileDevice(restored, d, inverted);
  }

  /** A UUID is registered in at most one of two consecutive discoveries. */
  lemma RegisteredAtMostOnce(reg: Registry, first: seq<Device>, second: seq<Device>, inverted: bool)
    ensures
      var r1 := Discover(reg, Some(first), inverted);
      var r2 := Discover(r1.registry, Some(second), inverted);
      EventUuids(r1.events) !! EventUuids(r2.events)
  {
    var r1 := DiscoverAll(reg, first, inverted);
    var r2 := DiscoverAll(r1.registry, second, inverted);
    DiscoverAllRegistersOnlyNew(reg, first, inverted);
    DiscoverAllRegistersOnlyNew(r1.registry, second, inverted);
    forall e | e in r1.events
      ensures e.acc.uuid in r1.registry
    {
      DiscoverAllKeys(reg, first, inverted, e.acc.uuid);
    }
  }
}
