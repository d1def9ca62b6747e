/** The older pad registry of virtualpad/pads.py: a module-level pool of eight
    entries, each empty or holding (device, nickname). It is independent of
    the slot registry. Devices come from an opaque constructor and are only
    tokens here; their destruction is reported as a list. */
module Pool {
  import opened Base

  const PoolSize := 8

  /** A device made by the pool's opaque constructor, known by its name. */
  datatype PoolDevice = PoolDevice(name: string)

  /** An occupied pool entry: the device and the occupant's nickname. */
  datatype Entry = Entry(device: PoolDevice, nickname: string)

  datatype PoolError = PadIndexOutOfRange(index: int) | PadInUse(index: int) | PadNotInUse(index: int)

  /** The index check every pool operation starts with. */
  function CheckIndex(index: int): (r: Option<PoolError>)
    ensures r == None <==> 0 <= index < PoolSize
    ensures r != None ==> r == Some(PadIndexOutOfRange(index))
  {
    if 0 <= index < PoolSize then None else Some(PadIndexOutOfRange(index))
  }

  /** The name a device made for pool entry `index` receives. */
  function DeviceName(deviceName: string, index: int): string { deviceName + "-" + Decimal(index) }

  /** The devices of the occupied entries, in index order. */
  function Occupants(entries: seq<Option<Entry>>): (r: seq<PoolDevice>)
    ensures |r| <= |entries|
  {
    if entries == [] then []
    else Occupants(entries[..|entries| - 1])
         + (match entries[|entries| - 1] case Some(e) => [e.device] case None => [])
  }

  /** What `pad_get` answers for an entry: (device, nickname), or
      (None, None) for an empty entry. */
  function AsPair(entry: Option<Entry>): (Option<PoolDevice>, Option<string>)
  {
    match entry
    case Some(e) => (Some(e.device), Some(e.nickname))
    case None => (None, None)
  }

  class PadPool {
    const entries: array<Option<Entry>>

    ghost predicate Valid()
      reads this
    {
      entries.Length == PoolSize
    }

    /** The pool starts with all eight entries empty. */
    constructor ()
      ensures Valid() && fresh(entries)
      ensures forall i :: 0 <= i < entries.Length ==> entries[i] == None
    {
      entries := new Option<Entry>[PoolSize](_ => None);
    }

    /** The pair at an index, or (None, None) when it is empty; an index
        outside [0, 8) raises. The pool is only read. */
    function Get(index: int): (r: Result<(Option<PoolDevice>, Option<string>), PoolError>)
      requires Valid()
      reads this, entries
      ensures r.Err? <==> !(0 <= index < PoolSize)
      ensures r.Err? ==> r.error == PadIndexOutOfRange(index)
      ensures r.Ok? && entries[index].Some? ==>
                r.value == (Some(entries[index].value.device), Some(entries[index].value.nickname))
      ensures r.Ok? && entries[index].None? ==> r.value == (None, None)
    {
      match CheckIndex(index)
      case Some(e) => Err(e)
      case None => Ok(AsPair(entries[index]))
    }

    /** Fills an empty entry with a new device and a nickname. An index out
        of range or an occupied entry raises and leaves the pool as it was;
        otherwise only that entry changes. */
    method Set(index: int, deviceName: string, nickname: string) returns (err: Option<PoolError>)
      requires Valid()
      modifies entries
      ensures Valid()
      ensures !(0 <= index < PoolSize) ==> err == Some(PadIndexOutOfRange(index)) && entries[..] == old(entries[..])
      ensures 0 <= index < PoolSize && old(entries[index]).Some? ==>
                err == Some(PadInUse(index)) && entries[..] == old(entries[..])
      ensures 0 <= index < PoolSize && old(entries[index]).None? ==>
                err == None &&
                entries[..] == old(entries[..])[index := Some(Entry(PoolDevice(DeviceName(deviceName, index)), nickname))]
    {
      err := CheckIndex(index);
      if err != None {
        return;
      }
      var current := entries[index];
      if current.Some? {
        return Some(PadInUse(index));
      }
      entries[index] := Some(Entry(PoolDevice(DeviceName(deviceName, index)), nickname));
    }

    /** Empties an occupied entry. An index out of range or an empty entry
        raises and leaves the pool as it was; otherwise only that entry
        changes. */
    method Clear(index: int) returns (err: Option<PoolError>)
      requires Valid()
      modifies entries
      ensures Valid()
      ensures !(0 <= index < PoolSize) ==> err == Some(PadIndexOutOfRange(index)) && entries[..] == old(entries[..])
      ensures 0 <= index < PoolSize && old(entries[index]).None? ==>
                err == Some(PadNotInUse(index)) && entries[..] == old(entries[..])
      ensures 0 <= index < PoolSize && old(entries[index]).Some? ==>
                err == None && entries[..] == old(entries[..])[index := None]
    {
      err := CheckIndex(index);
      if err != None {
        return;
      }
      var current := entries[index];
      if current.None? {
        return Some(PadNotInUse(index));
      }
      entries[index] := None;
    }

    /** Empties every entry, destroying each device it held in index order. */
    method Teardown() returns (destroyed: seq<PoolDevice>)
      requires Valid()
      modifies entries
      ensures Valid()
      ensures forall i :: 0 <= i < entries.Length ==> entries[i] == None
      ensures destroyed == Occupants(old(entries[..]))
    {
      destroyed := [];
      var index := 0;
      while index < entries.Length
        invariant 0 <= index <= entries.Length
        invariant forall i :: 0 <= i < index ==> entries[i] == None
        invariant forall i :: index <= i < entries.Length ==> entries[i] == old(entries[i])
        invariant destroyed == Occupants(old(entries[..])[..index])
      {
        assert old(entries[..])[..index + 1][..index] == old(entries[..])[..index];
        var item := entries[index];
        if item.Some? {
          destroyed := destroyed + [item.value.device];
          entries[index] := None;
        }
        index := index + 1;
      }
      assert old(entries[..])[..index] == old(entries[..]);
    }
  }

  /** Setting an empty entry and then clearing it restores the pool, and
      what was set is what `pad_get` then reads back. */
  lemma SetThenClear(pool: seq<Option<Entry>>, index: int, e: Entry)
    requires |pool| == PoolSize && 0 <= index < PoolSize && pool[index].None?
    ensures AsPair(pool[index := Some(e)][index]) == (Some(e.device), Some(e.nickname))
    ensures pool[index := Some(e)][index := None] == pool
  {
  }

  /** Tearing down destroys exactly one device per occupied entry. */
  lemma {:induction false} OccupantsCount(entries: seq<Option<Entry>>)
    ensures |Occupants(entries)| == |set i | 0 <= i < |entries| && entries[i].Some?|
    decreases |entries|
  {
    if entries != [] {
      var n := |entries| - 1;
      OccupantsCount(entries[..n]);
      var before := set i | 0 <= i < n && entries[..n][i].Some?;
      var after := set i | 0 <= i < |entries| && entries[i].Some?;
      assert before == set i | 0 <= i < n && entries[i].Some?;
      if entries[n].Some? {
        assert after == before + {n};
      } else {
        assert after == before;
      }
    }
  }
}
