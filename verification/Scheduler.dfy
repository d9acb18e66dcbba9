/** Stable-order event scheduling: an ordered set and a map that refine one list in scheduling order. */
module Scheduler {
  import opened Machine
  import opened Wrappers

  datatype SchedulerError = SequenceExhausted

  /** An active event; among equal deadlines the lower sequence number goes first. */
  datatype Entry = Entry(deadline: u64, sequence: u64, id: u32)

  datatype DueEvent = DueEvent(id: u32, deadline: u64)

  /** The order of the queue: deadline, then sequence, then identifier. */
  predicate Before(a: Entry, b: Entry)
  {
    || a.deadline < b.deadline
    || (a.deadline == b.deadline && (a.sequence < b.sequence || (a.sequence == b.sequence && a.id < b.id)))
  }

  ghost predicate IsFirst(queue: set<Entry>, m: Entry)
  {
    m in queue && forall x :: x in queue && x != m ==> Before(m, x)
  }

  lemma {:induction false} FirstExists(queue: set<Entry>)
    requires queue != {}
    ensures exists m :: IsFirst(queue, m)
    decreases |queue|
  {
    var x :| x in queue;
    var rest := queue - {x};
    assert forall y :: y in queue <==> y in rest || y == x;
    if rest == {} {
      assert IsFirst(queue, x);
    } else {
      FirstExists(rest);
      var m :| IsFirst(rest, m);
      if Before(x, m) {
        forall y | y in rest
          ensures Before(x, y)
        {
          assert y == m || Before(m, y);
        }
        assert IsFirst(queue, x);
      } else {
        assert IsFirst(queue, m);
      }
    }
  }

  lemma FirstUnique(queue: set<Entry>, a: Entry, b: Entry)
    requires IsFirst(queue, a) && IsFirst(queue, b)
    ensures a == b
  {
  }

  // ----- The simple queue: entries in the order they were scheduled

  predicate Increasing(list: seq<Entry>)
  {
    forall j, k :: 0 <= j < k < |list| ==> list[j].sequence < list[k].sequence && list[j].id != list[k].id
  }

  function Remove(list: seq<Entry>, id: u32): (r: seq<Entry>)
    ensures forall e :: e in r <==> e in list && e.id != id
  {
    if list == [] then []
    else Remove(list[..|list| - 1], id) + if list[|list| - 1].id == id then [] else [list[|list| - 1]]
  }

  /** The first of the entries with the least deadline. */
  function Earliest(list: seq<Entry>): (e: Entry)
    requires list != []
    ensures e in list
    ensures forall x :: x in list ==> e.deadline <= x.deadline
  {
    var last := list[|list| - 1];
    if |list| == 1 then last
    else
      var e := Earliest(list[..|list| - 1]);
      if last.deadline < e.deadline then last else e
  }

  lemma {:induction false} RemoveIncreasing(list: seq<Entry>, id: u32)
    requires Increasing(list)
    ensures Increasing(Remove(list, id))
  {
    if list != [] {
      var init, last := list[..|list| - 1], list[|list| - 1];
      RemoveIncreasing(init, id);
      forall e | e in Remove(init, id)
        ensures e.sequence < last.sequence && e.id != last.id
      {
        var k :| 0 <= k < |init| && init[k] == e;
        assert list[k] == e;
      }
    }
  }

  function Members(list: seq<Entry>): set<Entry>
  {
    set e | e in list
  }

  /** Among equal deadlines the simple queue picks the entry scheduled first, as the ordered set does. */
  lemma {:induction false} EarliestIsFirst(list: seq<Entry>)
    requires list != [] && Increasing(list)
    ensures IsFirst(Members(list), Earliest(list))
  {
    var init, last := list[..|list| - 1], list[|list| - 1];
    if |list| > 1 {
      EarliestIsFirst(init);
      forall e | e in init
        ensures e.sequence < last.sequence
      {
        var k :| 0 <= k < |init| && init[k] == e;
        assert list[k] == e;
      }
      assert forall e :: e in list <==> e in init || e == last;
    }
  }

  /** Set, map and list hold the same events. */
  ghost predicate Agree(queue: set<Entry>, active: map<u32, (u64, u64)>, list: seq<Entry>)
  {
    && (forall e :: e in queue <==> e in list)
    && (forall e :: e in list ==> e.id in active && active[e.id] == (e.deadline, e.sequence))
    && (forall id :: id in active ==> Entry(active[id].0, active[id].1, id) in list)
  }

  lemma AgreeRemove(queue: set<Entry>, active: map<u32, (u64, u64)>, list: seq<Entry>, id: u32)
    requires Agree(queue, active, list) && Increasing(list)
    ensures Increasing(Remove(list, id))
    ensures id in active ==>
              && Entry(active[id].0, active[id].1, id) in queue && Entry(active[id].0, active[id].1, id) in list
              && Agree(queue - {Entry(active[id].0, active[id].1, id)}, active - {id}, Remove(list, id))
    ensures id !in active ==> Remove(list, id) == list && forall e :: e in list ==> e.id != id
  {
    RemoveIncreasing(list, id);
    if id in active {
      OneEntry(list, id, active[id]);
    } else {
      forall k | 0 <= k < |list|
        ensures list[k].id != id
      {
        assert list[k] in list;
      }
      NothingToRemove(list, id);
    }
  }

  lemma SomethingQueued(queue: set<Entry>, active: map<u32, (u64, u64)>, list: seq<Entry>)
    requires Agree(queue, active, list) && list != []
    ensures queue != {}
  {
    assert list[0] in queue;
  }

  /** The queue without event `id`. */
  function Dequeued(queue: set<Entry>, active: map<u32, (u64, u64)>, id: u32): set<Entry>
  {
    if id in active then queue - {Entry(active[id].0, active[id].1, id)} else queue
  }

  lemma AgreeReplace(queue: set<Entry>, active: map<u32, (u64, u64)>, list: seq<Entry>, e: Entry)
    requires Agree(queue, active, list) && Increasing(list)
    requires forall x :: x in list ==> x.sequence < e.sequence
    ensures Increasing(Remove(list, e.id) + [e])
    ensures Agree(Dequeued(queue, active, e.id) + {e}, (active - {e.id})[e.id := (e.deadline, e.sequence)],
                  Remove(list, e.id) + [e])
  {
    hide Agree, Increasing;
    AgreeRemove(queue, active, list, e.id);
    assert e.id !in active ==> active - {e.id} == active;
    AgreeAppend(Dequeued(queue, active, e.id), active - {e.id}, Remove(list, e.id), e);
  }

  lemma AgreeAppend(queue: set<Entry>, active: map<u32, (u64, u64)>, list: seq<Entry>, e: Entry)
    requires Agree(queue, active, list) && Increasing(list)
    requires forall x :: x in list ==> x.sequence < e.sequence && x.id != e.id
    ensures Increasing(list + [e])
    ensures Agree(queue + {e}, active[e.id := (e.deadline, e.sequence)], list + [e])
  {
  }

  class Scheduler {
    var queue: set<Entry>
    var active: map<u32, (u64, u64)>
    var nextSequence: u64
    /** The active events in scheduling order. */
    ghost var list: seq<Entry>

    ghost predicate Valid()
      reads this
    {
      && Increasing(list)
      && (forall e :: e in list ==> e.sequence < nextSequence)
      && Agree(queue, active, list)
    }

    constructor ()
      ensures Valid() && list == []
    {
      queue, active, nextSequence, list := {}, map[], 0, [];
    }

    /** On the list: the event leaves its old place and joins at the end, so ties go to whoever waited longer. */
    method Schedule(id: u32, deadline: u64) returns (r: Result<(), SchedulerError>)
      requires Valid()
      modifies this
      ensures Valid()
      ensures r.Ok? <==> old(nextSequence) + 1 < U64_LIMIT
      ensures r.Ok? ==> list == Remove(old(list), id) + [Entry(deadline, old(nextSequence), id)]
      ensures r.Err? ==>
                list == old(list) && queue == old(queue) && active == old(active) && nextSequence == old(nextSequence)
    {
      if nextSequence + 1 >= U64_LIMIT {
        return Err(SequenceExhausted);
      }
      hide Agree, Increasing;
      var sequence := nextSequence;
      nextSequence := nextSequence + 1;
      AgreeReplace(queue, active, list, Entry(deadline, sequence, id));
      list := Remove(list, id) + [Entry(deadline, sequence, id)];
      queue := Dequeued(queue, active, id);
      active := active - {id};
      queue := queue + {Entry(deadline, sequence, id)};
      active := active[id := (deadline, sequence)];
      return Ok(());
    }

    /** On the list: the event is gone, the order of the others stays. */
    method Cancel(id: u32) returns (existed: bool)
      requires Valid()
      modifies this
      ensures Valid() && nextSequence == old(nextSequence)
      ensures list == Remove(old(list), id)
      ensures existed <==> exists e :: e in old(list) && e.id == id
    {
      hide Agree, Increasing;
      AgreeRemove(queue, active, list, id);
      if id !in active {
        return false;
      }
      var entry := Entry(active[id].0, active[id].1, id);
      active := active - {id};
      existed := entry in queue;
      queue := queue - {entry};
      list := Remove(list, id);
    }

    /** First entry of the ordered set. */
    method First() returns (first: Option<Entry>)
      requires Valid()
      ensures first == if list == [] then None else Some(Earliest(list))
    {
      if list != [] {
        SomethingQueued(queue, active, list);
      }
      if queue == {} {
        return None;
      }
      FirstExists(queue);
      assert list != [] by { var e :| e in queue; }
      EarliestIsFirst(list);
      assert Members(list) == queue;
      var m :| m in queue && forall x :: x in queue && x != m ==> Before(m, x);
      FirstUnique(queue, m, Earliest(list));
      return Some(m);
    }

    method NextDeadline() returns (deadline: Option<u64>)
      requires Valid()
      ensures deadline == if list == [] then None else Some(Earliest(list).deadline)
    {
      var first := First();
      return if first.Some? then Some(first.value.deadline) else None;
    }

    /** The earliest of the list if it is due, otherwise nothing and no change. */
    method PopDue(now: u64) returns (due: Option<DueEvent>)
      requires Valid()
      modifies this
      ensures Valid() && nextSequence == old(nextSequence)
      ensures old(list) == [] || Earliest(old(list)).deadline > now ==> due.None? && list == old(list)
      ensures old(list) != [] && Earliest(old(list)).deadline <= now ==>
                && due == Some(DueEvent(Earliest(old(list)).id, Earliest(old(list)).deadline))
                && list == Remove(old(list), Earliest(old(list)).id)
    {
      var first := First();
      if first.None? || first.value.deadline > now {
        return None;
      }
      var Entry(deadline, sequence, id) := first.value;
      AgreeRemove(queue, active, list, id);
      queue := queue - {first.value};
      active := active - {id};
      list := Remove(list, id);
      return Some(DueEvent(id, deadline));
    }

    /** Removes all active events; the sequence counter keeps running. */
    method Clear()
      requires Valid()
      modifies this
      ensures Valid() && list == [] && nextSequence == old(nextSequence)
    {
      queue, active, list := {}, map[], [];
    }

    /**
     * Pops until nothing is due: exactly the events due by `now`, once each, by deadline and among
     * equal deadlines in scheduling order. Later events stay queued in their order.
     */
    method Drain(now: u64) returns (events: seq<DueEvent>, ghost popped: seq<Entry>)
      requires Valid()
      modifies this
      ensures Valid() && nextSequence == old(nextSequence)
      ensures |events| == |popped|
      ensures forall k :: 0 <= k < |events| ==> events[k] == DueEvent(popped[k].id, popped[k].deadline)
      ensures forall e :: e in popped <==> e in old(list) && e.deadline <= now
      ensures forall j, k :: 0 <= j < k < |popped| ==> Before(popped[j], popped[k])
      ensures forall e :: e in list <==> e in old(list) && e.deadline > now
    {
      hide Increasing, Agree, Before;
      events, popped := [], [];
      Undrained(list, now);
      while true
        invariant Valid() && nextSequence == old(nextSequence)
        invariant |events| == |popped|
        invariant forall k :: 0 <= k < |events| ==> events[k] == DueEvent(popped[k].id, popped[k].deadline)
        invariant Drained(old(list), list, popped, now)
        decreases |list|
      {
        ghost var before := list;
        var due := PopDue(now);
        if due.None? {
          Exhausted(old(list), before, popped, now);
          return;
        }
        ghost var e := Earliest(before);
        DrainStep(old(list), before, popped, now);
        events := events + [due.value];
        popped := popped + [e];
      }
    }
  }

  /** The popped entries and the list partition the original; all popped ones come first. */
  ghost predicate Drained(original: seq<Entry>, list: seq<Entry>, popped: seq<Entry>, now: u64)
  {
    && (forall e :: e in original <==> e in popped || e in list)
    && (forall e :: e in popped ==> e.deadline <= now)
    && (forall e, x :: e in popped && x in list ==> Before(e, x))
    && (forall j, k :: 0 <= j < k < |popped| ==> Before(popped[j], popped[k]))
  }

  lemma Undrained(list: seq<Entry>, now: u64)
    ensures Drained(list, list, [], now)
  {
  }

  lemma Exhausted(original: seq<Entry>, list: seq<Entry>, popped: seq<Entry>, now: u64)
    requires Drained(original, list, popped, now)
    requires list != [] ==> Earliest(list).deadline > now
    ensures forall e :: e in popped <==> e in original && e.deadline <= now
    ensures forall e :: e in list <==> e in original && e.deadline > now
    ensures forall j, k :: 0 <= j < k < |popped| ==> Before(popped[j], popped[k])
  {
  }

  lemma DrainStep(original: seq<Entry>, list: seq<Entry>, popped: seq<Entry>, now: u64)
    requires Drained(original, list, popped, now) && list != [] && Increasing(list) && Earliest(list).deadline <= now
    ensures Drained(original, Remove(list, Earliest(list).id), popped + [Earliest(list)], now)
    ensures |Remove(list, Earliest(list).id)| < |list|
  {
    hide Increasing, Before;
    var e := Earliest(list);
    Popped(list, e);
    var popped' := popped + [e];
    assert forall x :: x in popped' <==> x in popped || x == e;
    forall j, k | 0 <= j < k < |popped'|
      ensures Before(popped'[j], popped'[k])
    {
      assert popped'[j] in popped;
    }
    RemoveShorter(list, e);
  }

  lemma {:induction false} RemoveShorter(list: seq<Entry>, e: Entry)
    requires e in list
    ensures |Remove(list, e.id)| < |list|
  {
    if e in list[..|list| - 1] {
      RemoveShorter(list[..|list| - 1], e);
    } else {
      RemoveNoLonger(list[..|list| - 1], e.id);
    }
  }

  lemma {:induction false} RemoveNoLonger(list: seq<Entry>, id: u32)
    ensures |Remove(list, id)| <= |list|
  {
    if list != [] {
      RemoveNoLonger(list[..|list| - 1], id);
    }
  }

  /** Identifiers are unique, so removing by identifier removes one entry. */
  lemma OneEntry(list: seq<Entry>, id: u32, at: (u64, u64))
    requires Increasing(list) && Entry(at.0, at.1, id) in list
    ensures forall e :: e in list && e.id == id ==> e == Entry(at.0, at.1, id)
  {
  }

  lemma {:induction false} NothingToRemove(list: seq<Entry>, id: u32)
    requires forall k :: 0 <= k < |list| ==> list[k].id != id
    ensures Remove(list, id) == list
  {
    if list != [] {
      var init, last := list[..|list| - 1], list[|list| - 1];
      assert last.id != id && list == init + [last];
      assert forall k :: 0 <= k < |init| ==> init[k] == list[k];
      NothingToRemove(init, id);
    }
  }

  lemma Popped(list: seq<Entry>, e: Entry)
    requires list != [] && Increasing(list) && e == Earliest(list)
    ensures forall x :: x in list && x.id == e.id ==> x == e
    ensures forall x :: x in list && x != e ==> Before(e, x)
  {
  }
}
