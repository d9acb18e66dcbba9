/** IOP kernel result codes that the modelled services return. */
module KernelErrors {
  datatype KernelError =
    | IllegalObject
    | UnknownModule
    | AlreadyStarted
    | NotStarted
    | AlreadyStopped
    | CannotStop
    | NotStopped
    | NotRemovable
    | LibraryFound
    | LibraryNotFound
    | IllegalLibrary
    | LibraryInUse
    | AlreadyStopping
    | NoMemory
    | IllegalSize
}

/** Pure view of a fixed-capacity slot array. */
module Slots {
  import opened Machine
  import opened Wrappers

  /** Index of the lowest empty slot, or the capacity when there is none. */
  function FirstFree<T>(slots: seq<Option<T>>): (r: nat)
    ensures r <= |slots|
    ensures r < |slots| ==> slots[r].None?
    ensures forall i :: 0 <= i < r ==> slots[i].Some?
  {
    if slots == [] || slots[0].None? then 0 else 1 + FirstFree(slots[1..])
  }

  function Occupied<T>(slots: seq<Option<T>>): (n: nat)
    ensures n <= |slots|
  {
    if slots == [] then 0
    else Occupied(slots[..|slots| - 1]) + if slots[|slots| - 1].Some? then 1 else 0
  }

  /** Slots paired with their identifiers, empty ones dropped. */
  function Items<T>(slots: seq<Option<T>>, firstId: u32): (items: seq<(int, T)>)
    ensures |items| == Occupied(slots)
  {
    if slots == [] then []
    else
      var last := |slots| - 1;
      Items(slots[..last], firstId) + if slots[last].Some? then [(firstId + last, slots[last].value)] else []
  }

  /** The value stored under `id`, if any. */
  function Lookup<T>(slots: seq<Option<T>>, firstId: u32, id: int): Option<T>
  {
    if firstId <= id < firstId + |slots| then slots[id - firstId] else None
  }

  lemma {:induction false} OccupiedUpdate<T>(slots: seq<Option<T>>, i: nat, v: Option<T>)
    requires i < |slots|
    ensures Occupied(slots[i := v]) == Occupied(slots) - (if slots[i].Some? then 1 else 0) + (if v.Some? then 1 else 0)
  {
    var last := |slots| - 1;
    if i == last {
      assert slots[i := v][..last] == slots[..last];
    } else {
      OccupiedUpdate(slots[..last], i, v);
      assert slots[i := v][..last] == slots[..last][i := v];
    }
  }

  /** A table with no empty slot is exactly a full one. */
  lemma {:induction false} FullIffNoFree<T>(slots: seq<Option<T>>)
    ensures Occupied(slots) == |slots| <==> FirstFree(slots) == |slots|
  {
    if slots == [] {
    } else {
      var last := |slots| - 1;
      FullIffNoFree(slots[..last]);
      var prefix := slots[..last];
      assert forall i :: 0 <= i < last ==> prefix[i] == slots[i];
      if FirstFree(prefix) < last {
        assert slots[FirstFree(prefix)].None?;
      }
    }
  }

  /** `Items` lists every stored value under its own identifier, in strictly increasing order. */
  lemma {:induction false} ItemsSpec<T>(slots: seq<Option<T>>, firstId: u32)
    ensures forall k :: 0 <= k < |Items(slots, firstId)| ==>
                          Lookup(slots, firstId, Items(slots, firstId)[k].0) == Some(Items(slots, firstId)[k].1)
    ensures forall j, k :: 0 <= j < k < |Items(slots, firstId)| ==>
                             Items(slots, firstId)[j].0 < Items(slots, firstId)[k].0
    ensures forall i :: 0 <= i < |slots| && slots[i].Some? ==> (firstId + i, slots[i].value) in Items(slots, firstId)
  {
    if slots == [] {
    } else {
      var last := |slots| - 1;
      var prefix := slots[..last];
      ItemsSpec(prefix, firstId);
      var before, items := Items(prefix, firstId), Items(slots, firstId);
      assert before <= items;
      forall i | 0 <= i < |slots| && slots[i].Some?
        ensures (firstId + i, slots[i].value) in items
      {
        if i < last {
          assert prefix[i] == slots[i];
          assert (firstId + i, slots[i].value) in before;
        } else {
          assert items[|items| - 1] == (firstId + i, slots[i].value);
        }
      }
    }
  }
}

/** Instance-owned fixed-capacity table with stable identifiers. */
module Table {
  import opened Machine
  import opened Wrappers
  import opened KernelErrors
  import opened Slots

  class FixedTable<T> {
    const entries: array<Option<T>>
    const firstId: u32
    var len: nat

    ghost predicate Valid()
      reads this, entries
    {
      && len == Occupied(entries[..])
      && forall i :: 0 <= i < entries.Length && entries[i].Some? ==> firstId + i < U32_LIMIT
    }

    ghost function View(): seq<Option<T>>
      reads entries
    {
      entries[..]
    }

    ghost function At(id: int): Option<T>
      reads entries
    {
      Lookup(entries[..], firstId, id)
    }

    constructor (firstId: u32, capacity: nat)
      ensures Valid() && fresh(entries)
      ensures this.firstId == firstId && entries.Length == capacity
      ensures forall i :: 0 <= i < capacity ==> entries[i].None?
      ensures len == 0
    {
      this.firstId := firstId;
      var slots := new Option<T>[capacity](_ => None);
      entries := slots;
      len := 0;
      new;
      NoneOccupied(entries[..]);
    }

    /** After it every slot is free, so identifiers are given out from the first again. */
    method Clear()
      modifies this, entries
      ensures Valid() && len == 0
      ensures forall i :: 0 <= i < entries.Length ==> entries[i].None?
    {
      for i := 0 to entries.Length
        invariant forall k :: 0 <= k < i ==> entries[k].None?
      {
        entries[i] := None;
      }
      len := 0;
      NoneOccupied(entries[..]);
    }

    /** The identifier the next insertion would use: the lowest free one that still fits 32 bits. */
    method NextId() returns (id: Option<u32>)
      requires Valid()
      ensures id.Some? <==> FirstFree(View()) < entries.Length && firstId + FirstFree(View()) < U32_LIMIT
      ensures len < entries.Length <==> FirstFree(View()) < entries.Length
      ensures id.Some? ==> id.value == firstId + FirstFree(View()) && At(id.value).None?
      ensures id.Some? ==> forall lower :: firstId <= lower < id.value ==> At(lower).Some?
    {
      var i := 0;
      while i < entries.Length && entries[i].Some?
        invariant 0 <= i <= entries.Length
        invariant forall k :: 0 <= k < i ==> entries[k].Some?
      {
        i := i + 1;
      }
      FirstFreeUnique(entries[..], i);
      FullIffNoFree(entries[..]);
      if i == entries.Length || firstId + i >= U32_LIMIT {
        return None;
      }
      return Some(firstId + i);
    }

    method Insert(value: T) returns (r: Result<u32, KernelError>)
      requires Valid()
      modifies this, entries
      ensures Valid()
      ensures r.Ok? <==> FirstFree(old(View())) < entries.Length && firstId + FirstFree(old(View())) < U32_LIMIT
      ensures r.Ok? ==>
                && r.value == firstId + FirstFree(old(View()))
                && View() == old(View())[FirstFree(old(View())) := Some(value)]
                && len == old(len) + 1
      ensures r.Err? ==> r.error == NoMemory && View() == old(View()) && len == old(len)
    {
      var id := NextId();
      if id.None? {
        return Err(NoMemory);
      }
      var inserted := InsertAt(id.value, value);
      return Ok(id.value);
    }

    method InsertAt(id: u32, value: T) returns (r: Result<(), KernelError>)
      requires Valid()
      modifies this, entries
      ensures Valid()
      ensures r.Ok? <==> firstId <= id < firstId + entries.Length && old(At(id)).None?
      ensures r.Ok? ==> View() == old(View())[id - firstId := Some(value)] && len == old(len) + 1
      ensures r.Err? ==> r.error == IllegalObject && View() == old(View()) && len == old(len)
    {
      if id < firstId || id - firstId >= entries.Length {
        return Err(IllegalObject);
      }
      var index := id - firstId;
      if entries[index].Some? {
        return Err(IllegalObject);
      }
      OccupiedUpdate(entries[..], index, Some(value));
      entries[index] := Some(value);
      len := len + 1;
      assert entries[..] == old(entries[..])[index := Some(value)];
      return Ok(());
    }

    method Get(id: u32) returns (r: Option<T>)
      ensures r == At(id)
    {
      if id < firstId || id - firstId >= entries.Length {
        return None;
      }
      return entries[id - firstId];
    }

    /** Writes through the mutable reference `get_mut` returns. */
    method Replace(id: u32, value: T) returns (found: bool)
      requires Valid()
      modifies entries
      ensures Valid()
      ensures found == old(At(id)).Some?
      ensures View() == if found then old(View())[id - firstId := Some(value)] else old(View())
    {
      if id < firstId || id - firstId >= entries.Length || entries[id - firstId].None? {
        return false;
      }
      OccupiedUpdate(entries[..], id - firstId, Some(value));
      entries[id - firstId] := Some(value);
      assert entries[..] == old(entries[..])[id - firstId := Some(value)];
      return true;
    }

    method Remove(id: u32) returns (r: Option<T>)
      requires Valid()
      modifies this, entries
      ensures Valid()
      ensures r == old(At(id))
      ensures r.Some? ==> View() == old(View())[id - firstId := None] && len == old(len) - 1
      ensures r.None? ==> View() == old(View()) && len == old(len)
    {
      if id < firstId || id - firstId >= entries.Length {
        return None;
      }
      var index := id - firstId;
      r := entries[index];
      if r.Some? {
        OccupiedUpdate(entries[..], index, None);
        entries[index] := None;
        len := len - 1;
        assert entries[..] == old(entries[..])[index := None];
      }
      assert entries[..] == if r.Some? then old(entries[..])[index := None] else old(entries[..]);
    }

    /** The sequence `Items`, about which `ItemsSpec` speaks. */
    method Iter() returns (items: seq<(u32, T)>)
      requires Valid()
      ensures items == Items(View(), firstId)
    {
      items := [];
      for i := 0 to entries.Length
        invariant items == Items(entries[..i], firstId)
      {
        assert entries[..i + 1][..i] == entries[..i];
        if entries[i].Some? {
          items := items + [(firstId + i, entries[i].value)];
        }
      }
      assert entries[..entries.Length] == entries[..];
    }
  }

  lemma NoneOccupied<T>(slots: seq<Option<T>>)
    requires forall i :: 0 <= i < |slots| ==> slots[i].None?
    ensures Occupied(slots) == 0
  {
  }

  lemma FirstFreeUnique<T>(slots: seq<Option<T>>, i: nat)
    requires i <= |slots|
    requires forall k :: 0 <= k < i ==> slots[k].Some?
    requires i < |slots| ==> slots[i].None?
    ensures FirstFree(slots) == i
  {
  }

  /** Removing what was just inserted restores the table, so identifiers are stable. */
  lemma InsertRemove<T>(slots: seq<Option<T>>, v: T)
    requires FirstFree(slots) < |slots|
    ensures var i := FirstFree(slots); slots[i := Some(v)][i := None] == slots
  {
  }
}
