/** The gamepad slot registry of virtualpad/pads/__init__.py: each slot moves
    between EMPTY, OCCUPIED and RECENTLY_USED, and creates its device lazily so
    that a recently used device can be handed to the next occupant. Clock
    readings are parameters; the heartbeat delay comes from a constants file
    that is not part of this model, so it is a parameter too. */
module Slots {
  import opened Base
  import Devices

  datatype Status = Empty | Occupied | RecentlyUsed

  /** The exceptions the slot operations raise. `TypeError` stands for the
      Python runtime error of a call with ill-typed or missing arguments. */
  datatype SlotError = PadInUse(index: int) | PadNotInUse(index: int) | TypeError

  /** The device name a slot gives to the device it creates. */
  function PadName(index: int): string { "Hawa-VirtualPad-" + Decimal(index) }

  /** The serialised form of a slot: (status word, nickname). */
  type SlotView = (string, string)

  /** The corrected heartbeat decision: a recently used slot whose last use
      lies more than `timeout` seconds before `now`. */
  predicate HeartbeatDue(status: Status, stamp: Option<int>, now: int, timeout: int)
  {
    status == RecentlyUsed && stamp.Some? && now - stamp.value > timeout
  }

  class PadSlot {
    const padIndex: int
    const name: string
    var status: Status
    var device: Devices.Device?
    var nickname: string
    var connectionIndex: int
    var lastUserStamp: Option<int>

    /** The slot invariant the operations keep: an empty slot holds no user
        data and no device; a non-empty slot holds a device; a recently used
        slot holds no user data but remembers when it was released. */
    ghost predicate Valid()
      reads this
    {
      && name == PadName(padIndex)
      && (status == Empty ==>
            device == null && nickname == "" && connectionIndex == -1 && lastUserStamp == None)
      && (status != Empty ==> device != null)
      && (status == RecentlyUsed ==>
            nickname == "" && connectionIndex == -1 && lastUserStamp.Some?)
    }

    /** A fresh slot: empty, no nickname, connection -1, no device, no stamp. */
    constructor (padIndex: int)
      ensures Valid()
      ensures this.padIndex == padIndex && status == Empty
      ensures nickname == "" && connectionIndex == -1 && device == null && lastUserStamp == None
    {
      this.padIndex := padIndex;
      name := PadName(padIndex);
      status := Empty;
      device := null;
      nickname := "";
      connectionIndex := -1;
      lastUserStamp := None;
    }

    /** Occupies the slot for a user on a connection. The device is created
        only when the slot has none, so a recently used device is reused. */
    method Occupy(nick: string, connection: int) returns (err: Option<SlotError>)
      requires Valid()
      modifies this
      ensures Valid()
      ensures old(status) == Occupied ==> err == Some(PadInUse(padIndex)) && unchanged(this)
      ensures old(status) != Occupied ==>
                && err == None && status == Occupied
                && nickname == nick && connectionIndex == connection
                && lastUserStamp == old(lastUserStamp)
      ensures old(status) != Occupied && old(device) != null ==> device == old(device)
      ensures old(status) != Occupied && old(device) == null ==>
                fresh(device) && device.name == name && device.log == Devices.InitialLog
    {
      if status == Occupied {
        return Some(PadInUse(padIndex));
      }
      status := Occupied;
      nickname := nick;
      connectionIndex := connection;
      if device == null {
        device := new Devices.Device.Make(name);
      }
      err := None;
    }

    /** Releases the slot. Forced: any non-empty slot becomes empty and drops
        its device. Not forced: only an occupied slot may be released; it
        becomes recently used, keeps its device and records `now`. */
    method Release(force: bool, now: int) returns (err: Option<SlotError>)
      requires Valid()
      modifies this
      ensures Valid()
      ensures force && old(status) == Empty ==> err == Some(PadNotInUse(padIndex)) && unchanged(this)
      ensures force && old(status) != Empty ==>
                && err == None && status == Empty && nickname == "" && connectionIndex == -1
                && lastUserStamp == None && device == null
      ensures !force && old(status) != Occupied ==> err == Some(PadNotInUse(padIndex)) && unchanged(this)
      ensures !force && old(status) == Occupied ==>
                && err == None && status == RecentlyUsed && nickname == "" && connectionIndex == -1
                && lastUserStamp == Some(now) && device == old(device)
    {
      if force {
        if status == Empty {
          return Some(PadNotInUse(padIndex));
        }
        status := Empty;
        nickname := "";
        connectionIndex := -1;
        lastUserStamp := None;
        device := null;
      } else {
        if status != Occupied {
          return Some(PadNotInUse(padIndex));
        }
        status := RecentlyUsed;
        nickname := "";
        connectionIndex := -1;
        lastUserStamp := Some(now);
      }
      err := None;
    }

    /** The heartbeat as written: it subtracts the status from the clock,
        which raises a TypeError whenever the slot is recently used, so it
        never reports an elapsed heartbeat and never changes the slot. */
    function HeartbeatAsWritten(): (r: Result<bool, SlotError>)
      reads this
      ensures r != Ok(true)
      ensures r.Err? <==> status == RecentlyUsed
    {
      if status == RecentlyUsed then Err(TypeError) else Ok(false)
    }

    /** The heartbeat as intended: a recently used slot whose release lies
        more than `timeout` seconds back becomes empty and drops its device;
        the answer says whether that happened, and nothing else changes. */
    method Heartbeat(now: int, timeout: int) returns (elapsed: bool)
      requires Valid()
      modifies this
      ensures Valid()
      ensures elapsed <==> old(status) == RecentlyUsed && now - old(lastUserStamp).value > timeout
      ensures elapsed ==> status == Empty && lastUserStamp == None && device == null
                          && nickname == old(nickname) && connectionIndex == old(connectionIndex)
      ensures !elapsed ==> unchanged(this)
    {
      if HeartbeatDue(status, lastUserStamp, now, timeout) {
        status := Empty;
        lastUserStamp := None;
        device := null;
        return true;
      }
      return false;
    }

    /** The emit guard as written: a slot that is not occupied raises
        PadNotInUse, and an occupied one calls the device-level `emit`
        without its device argument, which raises a TypeError. */
    function EmitAsWritten(events: seq<Devices.Event>): (r: Result<(), SlotError>)
      reads this
      ensures r.Err?
      ensures status != Occupied ==> r == Err(PadNotInUse(padIndex))
      ensures status == Occupied ==> r == Err(TypeError)
    {
      if status != Occupied then Err(PadNotInUse(padIndex)) else Err(TypeError)
    }

    /** The emit guard as intended: only an occupied slot emits, and then its
        device receives exactly the translation of the events. */
    method Emit(events: seq<Devices.Event>) returns (err: Option<SlotError>)
      requires Valid()
      modifies device
      ensures status != Occupied ==> err == Some(PadNotInUse(padIndex))
      ensures status != Occupied && device != null ==> device.log == old(device.log)
      ensures status == Occupied ==>
                err == None && device.log == old(device.log) + Devices.Translate(events)
    {
      if status != Occupied {
        return Some(PadNotInUse(padIndex));
      }
      Devices.Emit(device, events);
      err := None;
    }

    /** The slot as the admin channel reports it. */
    function Serialize(): (r: SlotView)
      reads this
      ensures status == Occupied ==> r == ("occupied", nickname)
      ensures status == RecentlyUsed ==> r == ("recently-used", "")
      ensures status == Empty ==> r == ("empty", "")
    {
      match status
      case Occupied => ("occupied", nickname)
      case RecentlyUsed => ("recently-used", "")
      case Empty => ("empty", "")
    }
  }

  /** The corrected heartbeat fires where the written one raises: a slot
      released at time 0 and checked at a time past the delay. */
  lemma HeartbeatDiscrepancy(slot: PadSlot, now: int, timeout: int)
    requires slot.status == RecentlyUsed && slot.lastUserStamp == Some(0) && now > timeout
    ensures HeartbeatDue(slot.status, slot.lastUserStamp, now, timeout)
    ensures slot.HeartbeatAsWritten() == Err(TypeError)
  {
  }

  /** The fixed collection of slots, one per configured index. */
  class PadSlots {
    const slots: seq<PadSlot>

    ghost predicate Valid()
      reads this, slots
    {
      && (forall i :: 0 <= i < |slots| ==> slots[i].Valid())
      && (forall i, j :: 0 <= i < j < |slots| ==> slots[i] != slots[j])
    }

    /** One fresh empty slot per index, in the order of the indices. */
    constructor (indices: seq<int>)
      ensures Valid() && fresh(slots)
      ensures |slots| == |indices|
      ensures forall i :: 0 <= i < |slots| ==> slots[i].padIndex == indices[i] && slots[i].status == Empty
      ensures forall i :: 0 <= i < |slots| ==> Serialize()[i] == ("empty", "")
    {
      var made: seq<PadSlot> := [];
      while |made| < |indices|
        invariant |made| <= |indices|
        invariant forall i :: 0 <= i < |made| ==>
                    fresh(made[i]) && made[i].Valid() && made[i].padIndex == indices[i] && made[i].status == Empty
        invariant forall i, j :: 0 <= i < j < |made| ==> made[i] != made[j]
      {
        var slot := new PadSlot(indices[|made|]);
        made := made + [slot];
      }
      slots := made;
    }

    /** Every slot's state, one entry per slot in index order. */
    function Serialize(): (r: seq<SlotView>)
      reads this, slots
      ensures |r| == |slots|
      ensures forall i :: 0 <= i < |slots| ==> r[i] == slots[i].Serialize()
    {
      seq(|slots|, i reads slots requires 0 <= i < |slots| => slots[i].Serialize())
    }
  }
}
