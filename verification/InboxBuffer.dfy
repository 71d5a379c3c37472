/** A bounded inbox: what it replays, against the unbounded list of everything ever appended. */
module InboxBuffer {
  import opened Hashing

  /** Identifiers are the decimal strings of 1, 2, 3, ...; they are kept here as the numbers. */
  datatype StoredEvent = StoredEvent(id: nat, event: string, data: string)

  /** Everything appended, numbered from 1. */
  function Numbered(all: seq<(string, string)>): (r: seq<StoredEvent>)
    ensures |r| == |all| && forall k :: 0 <= k < |all| ==> r[k] == StoredEvent(k + 1, all[k].0, all[k].1)
  {
    seq(|all|, k requires 0 <= k < |all| => StoredEvent(k + 1, all[k].0, all[k].1))
  }

  /** How many events have been dropped from the front. */
  function Dropped(n: nat, capacity: nat): nat { if n > capacity then n - capacity else 0 }

  /** `filter`: the events numbered above a boundary. */
  function Above(events: seq<StoredEvent>, boundary: real): seq<StoredEvent> {
    if events == [] then []
    else (if events[0].id as real > boundary then [events[0]] else []) + Above(events[1..], boundary)
  }

  lemma {:induction false} AboveSnoc(events: seq<StoredEvent>, e: StoredEvent, boundary: real)
    ensures Above(events + [e], boundary) == Above(events, boundary) + if e.id as real > boundary then [e] else []
  {
    if events == [] {
      assert events + [e] == [e];
    } else {
      assert (events + [e])[1..] == events[1..] + [e];
      AboveSnoc(events[1..], e, boundary);
      ConcatAssoc(if events[0].id as real > boundary then [events[0]] else [], Above(events[1..], boundary),
                  if e.id as real > boundary then [e] else []);
    }
  }

  class InboxBuffer {
    const capacity: nat
    var entries: seq<StoredEvent>
    var nextId: nat
    ghost var all: seq<(string, string)>

    /** The ring holds the newest events, as many as fit, with their numbers. */
    ghost predicate Valid()
      reads this
    {
      && capacity >= 1 && nextId == |all| + 1
      && entries == Numbered(all)[Dropped(|all|, capacity)..]
    }

    constructor (capacity: nat)
      requires capacity >= 1
      ensures Valid() && all == [] && this.capacity == capacity
    {
      this.capacity := capacity;
      entries, nextId, all := [], 1, [];
    }

    /** The constructor as callers see it: a capacity below one throws. */
    static method Make(capacity: int) returns (r: Result<InboxBuffer>)
      ensures r.Ok? <==> capacity >= 1
      ensures r.Ok? ==> fresh(r.value) && r.value.Valid() && r.value.all == [] && r.value.capacity == capacity
    {
      if capacity < 1 { return Err("INVALID_INBOX_CAPACITY"); }
      var b := new InboxBuffer(capacity);
      r := Ok(b);
    }

    /** `append` */
    method Append(event: string, data: string) returns (stored: StoredEvent)
      requires Valid()
      modifies this
      ensures Valid() && all == old(all) + [(event, data)]
      ensures stored == StoredEvent(|all|, event, data)
      ensures |entries| == if |all| < capacity then |all| else capacity
      ensures entries[|entries| - 1] == stored
    {
      stored := StoredEvent(nextId, event, data);
      ghost var was := Numbered(all);
      nextId, all := nextId + 1, all + [(event, data)];
      assert Numbered(all) == was + [stored];
      entries := entries + [stored];
      if |entries| > capacity { entries := entries[1..]; }
    }

    /**
     * `since`. The identifier arrives as a string: absent or empty, or read as a number, `None` where
     * that is not finite.
     */
    method Since(lastEventId: string, num: string -> Option<real>) returns (r: seq<StoredEvent>)
      requires Valid()
      ensures r == if lastEventId == "" || num(lastEventId).None? then entries
                   else Above(entries, num(lastEventId).value)
    {
      if lastEventId == "" { return entries; }
      var boundary := num(lastEventId);
      if boundary.None? { return entries; }
      r := [];
      for i := 0 to |entries|
        invariant r == Above(entries[..i], boundary.value)
      {
        assert entries[..i + 1] == entries[..i] + [entries[i]];
        AboveSnoc(entries[..i], entries[i], boundary.value);
        if entries[i].id as real > boundary.value { r := r + [entries[i]]; }
      }
      assert entries[..|entries|] == entries;
    }
  }

  /** What is retained: the newest ones, as many as fit, each still with its number. */
  lemma RetainsNewest(b: InboxBuffer, k: nat)
    requires b.Valid() && k < |b.entries|
    ensures |b.entries| == if |b.all| < b.capacity then |b.all| else b.capacity
    ensures var n := |b.all| - |b.entries| + k;
            b.entries[k] == StoredEvent(n + 1, b.all[n].0, b.all[n].1)
  {
  }

  lemma {:induction false} AboveAppend(a: seq<StoredEvent>, b: seq<StoredEvent>, boundary: real)
    ensures Above(a + b, boundary) == Above(a, boundary) + Above(b, boundary)
  {
    if a == [] {
      assert a + b == b;
    } else {
      assert (a + b)[1..] == a[1..] + b;
      AboveAppend(a[1..], b, boundary);
    }
  }

  lemma {:induction false} AboveNone(events: seq<StoredEvent>, boundary: real)
    ensures Above(events, boundary) == [] <==> forall k :: 0 <= k < |events| ==> events[k].id as real <= boundary
  {
    if events != [] {
      AboveNone(events[1..], boundary);
      assert forall k :: 0 < k < |events| ==> events[k] == events[1..][k - 1];
    }
  }

  /**
   * The ring replays what the unbounded list would, exactly when nothing after the boundary has been dropped:
   * when the boundary is within the last `capacity` identifiers or nothing was dropped at all.
   */
  lemma ReplayCompleteIff(all: seq<(string, string)>, capacity: nat, boundary: real)
    ensures var dropped := Dropped(|all|, capacity);
            Above(Numbered(all)[dropped..], boundary) == Above(Numbered(all), boundary)
            <==> dropped as real <= boundary || dropped == 0
  {
    var events, dropped := Numbered(all), Dropped(|all|, capacity);
    assert events == events[..dropped] + events[dropped..];
    AboveAppend(events[..dropped], events[dropped..], boundary);
    AboveNone(events[..dropped], boundary);
    if dropped > 0 { assert events[..dropped][dropped - 1].id == dropped; }
    hide Above;
    var lost, kept := Above(events[..dropped], boundary), Above(events[dropped..], boundary);
    assert lost + kept == kept ==> |lost| == 0;
  }

  /** Replay from identifier `k` of the unbounded list is everything after it, in order. */
  lemma {:induction false} AboveIsSuffix(all: seq<(string, string)>, k: nat)
    requires k <= |all|
    ensures Above(Numbered(all), k as real) == Numbered(all)[k..]
  {
    var events := Numbered(all);
    assert events == events[..k] + events[k..];
    AboveAppend(events[..k], events[k..], k as real);
    AboveNone(events[..k], k as real);
    AboveAll(events[k..], k as real);
  }

  lemma {:induction false} AboveAll(events: seq<StoredEvent>, boundary: real)
    requires forall k :: 0 <= k < |events| ==> events[k].id as real > boundary
    ensures Above(events, boundary) == events
  {
    if events != [] { AboveAll(events[1..], boundary); }
  }
}
