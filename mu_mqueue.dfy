// mu_mqueue: a bounded FIFO of pointer-sized elements kept in a
// caller-supplied ring of `capacity` slots.  `index` is where the next
// element is stored and the oldest element sits `count` slots before it.

module MuMqueue {
  import opened Common
  import opened MuTask

  /** The slot k places after `head` in a ring of `capacity` slots. */
  function Slot(head: nat, k: nat, capacity: nat): (r: nat)
    requires head < capacity && k <= capacity
    ensures r < capacity || (k == capacity && r == head + k - capacity)
    ensures r == (head + k) % capacity
  {
    ModAdd(head + k, capacity);
    if head + k < capacity then head + k else head + k - capacity
  }

  /** For 0 <= x < 2m, x mod m is x or x - m. */
  lemma ModAdd(x: nat, m: nat)
    requires 0 < m && x < 2 * m
    ensures x % m == if x < m then x else x - m
  {
    if x >= m {
      assert (x - m) % m == x % m;
    }
  }

  /** The `count` elements of a ring starting at slot `head`, oldest first. */
  function RingContents<T>(buf: seq<T>, head: nat, count: nat, capacity: nat): (r: seq<T>)
    requires head < capacity <= |buf| && count <= capacity
    ensures |r| == count
    ensures forall k :: 0 <= k < count ==> r[k] == buf[Slot(head, k, capacity)]
  {
    seq(count, k requires 0 <= k < count => buf[Slot(head, k, capacity)])
  }

  /** Storing at the slot after the last element appends to the ring's contents. */
  lemma RingAppend<T>(buf: seq<T>, head: nat, count: nat, capacity: nat, e: T)
    requires head < capacity <= |buf| && count < capacity
    ensures RingContents(buf[Slot(head, count, capacity) := e], head, count + 1, capacity)
         == RingContents(buf, head, count, capacity) + [e]
  {
    var after := RingContents(buf[Slot(head, count, capacity) := e], head, count + 1, capacity);
    var before := RingContents(buf, head, count, capacity) + [e];
    assert forall k :: 0 <= k < count + 1 ==> after[k] == before[k];
  }

  /** Dropping the oldest element moves the head one slot on. */
  lemma RingDropFirst<T>(buf: seq<T>, head: nat, count: nat, capacity: nat)
    requires head < capacity <= |buf| && 0 < count <= capacity
    ensures RingContents(buf, Slot(head, 1, capacity), count - 1, capacity)
         == RingContents(buf, head, count, capacity)[1..]
  {
    var after := RingContents(buf, Slot(head, 1, capacity), count - 1, capacity);
    var before := RingContents(buf, head, count, capacity)[1..];
    assert forall k :: 0 <= k < count - 1 ==> after[k] == before[k];
  }

  class MQueue<T> {
    var storage: array<T>
    var capacity: nat
    var count: nat
    var index: nat
    var onPut: Task?
    var onGet: Task?

    /** Index below capacity, count at most capacity, storage big enough. */
    ghost predicate Valid()
      reads this
    {
      capacity <= storage.Length && count <= capacity &&
      (if capacity == 0 then index == 0 else index < capacity)
    }

    /** The slot of the oldest element: (index - count) mod capacity, computed without going negative. */
    function Head(): (h: nat)
      requires Valid() && 0 < capacity
      reads this
      ensures h < capacity
      ensures h + count == index || h + count == index + capacity
    {
      var idx := capacity + index - count;
      if idx >= capacity then idx - capacity else idx
    }

    /** The queued elements, oldest first. */
    ghost function Contents(): (r: seq<T>)
      requires Valid()
      reads this, storage
      ensures |r| == count
    {
      if capacity == 0 then [] else RingContents(storage[..], Head(), count, capacity)
    }

    /** mu_mqueue_init followed by mu_mqueue_reset. */
    constructor Init(buf: array<T>, cap: nat, put: Task?, get: Task?)
      requires cap <= buf.Length
      ensures Valid() && Contents() == []
      ensures storage == buf && capacity == cap && onPut == put && onGet == get
      ensures count == 0 && index == 0
    {
      storage := buf;
      capacity := cap;
      onPut := put;
      onGet := get;
      count := 0;
      index := 0;
    }

    /** mu_mqueue_reset: empties the queue, keeps storage, capacity and callbacks; returns the same queue. */
    method Reset() returns (q: MQueue<T>)
      requires Valid()
      modifies this
      ensures q == this && Valid() && Contents() == []
      ensures count == 0 && index == 0
      ensures storage == old(storage) && capacity == old(capacity)
      ensures onPut == old(onPut) && onGet == old(onGet)
    {
      count := 0;
      index := 0;
      q := this;
    }

    function Capacity(): nat
      reads this
    {
      capacity
    }

    function Count(): nat
      reads this
    {
      count
    }

    predicate IsEmpty()
      reads this
    {
      count == 0
    }

    predicate IsFull()
      reads this
    {
      count == capacity
    }

    /**
     * mu_mqueue_put: a full queue is left alone and on_put is not called;
     * otherwise the element joins the back of the queue and on_put runs once.
     */
    method Put(hooks: Hooks, e: T, ghost current: Task?) returns (ok: bool)
      requires Valid()
      modifies this, storage, hooks
      ensures Valid() && storage == old(storage)
      ensures capacity == old(capacity) && onPut == old(onPut) && onGet == old(onGet)
      ensures hooks.callHook == old(hooks.callHook) && hooks.setStateHook == old(hooks.setStateHook)
      ensures ok <==> old(count) < old(capacity)
      ensures !ok ==> count == old(count) && index == old(index) && storage[..] == old(storage[..])
                      && hooks.events == old(hooks.events)
      ensures ok ==> Contents() == old(Contents()) + [e]
      ensures ok ==> storage[..] == old(storage[..])[old(index) := e]
      ensures ok ==> count == old(count) + 1 && index == (old(index) + 1) % capacity
      ensures ok ==>
                hooks.events == old(hooks.events)
                     + CallEvents(hooks.callHook, onPut, if onPut == null then 0 else onPut.fn, NULL, current)
    {
      if !IsFull() {
        Store(e);
        hooks.Call(onPut, NULL, current);
        ok := true;
      } else {
        ok := false;
      }
    }

    /** The ring update of put on a queue with room: e goes in slot index and becomes the newest element. */
    method Store(e: T)
      requires Valid() && count < capacity
      modifies this, storage
      ensures Valid() && storage == old(storage) && capacity == old(capacity)
      ensures onPut == old(onPut) && onGet == old(onGet)
      ensures Contents() == old(Contents()) + [e]
      ensures storage[..] == old(storage[..])[old(index) := e]
      ensures count == old(count) + 1 && index == (old(index) + 1) % capacity
    {
      ghost var h := Head();
      RingAppend(storage[..], h, count, capacity, e);
      assert Slot(h, count, capacity) == index;
      storage[index] := e;
      index := Slot(index, 1, capacity);
      count := count + 1;
      assert Head() == h;
    }

    /**
     * mu_mqueue_get: an empty queue yields NULL (None) and calls nothing;
     * otherwise the oldest element is removed and returned and on_get runs once.
     */
    method Get(hooks: Hooks, ghost current: Task?) returns (ok: bool, e: Option<T>)
      requires Valid()
      modifies this, hooks
      ensures Valid()
      ensures storage == old(storage) && capacity == old(capacity) && index == old(index)
      ensures onPut == old(onPut) && onGet == old(onGet)
      ensures hooks.callHook == old(hooks.callHook) && hooks.setStateHook == old(hooks.setStateHook)
      ensures ok <==> old(count) > 0
      ensures !ok ==> e == None && count == old(count) && hooks.events == old(hooks.events)
      ensures ok ==> e == Some(old(Contents())[0]) && Contents() == old(Contents())[1..]
      ensures ok ==> count == old(count) - 1
      ensures ok ==>
                hooks.events == old(hooks.events)
                     + CallEvents(hooks.callHook, onGet, if onGet == null then 0 else onGet.fn, NULL, current)
    {
      ok, e := AccessQueue(hooks, true, current);
    }

    /**
     * mu_mqueue_peek, i.e. access_queue without fetching: what Get would
     * return, with nothing removed and nothing called.
     */
    method Peek() returns (ok: bool, e: Option<T>)
      requires Valid()
      ensures ok <==> count > 0
      ensures !ok ==> e == None
      ensures ok ==> e == Some(Contents()[0])
    {
      if !IsEmpty() {
        e := Some(storage[Head()]);
        ok := true;
      } else {
        e := None;
        ok := false;
      }
    }

    /** access_queue: the shared body of get (fetch) and peek (no fetch). */
    method AccessQueue(hooks: Hooks, fetch: bool, ghost current: Task?) returns (ok: bool, e: Option<T>)
      requires Valid()
      modifies this, hooks
      ensures Valid()
      ensures storage == old(storage) && capacity == old(capacity) && index == old(index)
      ensures onPut == old(onPut) && onGet == old(onGet)
      ensures hooks.callHook == old(hooks.callHook) && hooks.setStateHook == old(hooks.setStateHook)
      ensures ok <==> old(count) > 0
      ensures ok ==> e == Some(old(Contents())[0])
      ensures !ok ==> e == None
      ensures !(ok && fetch) ==> count == old(count) && hooks.events == old(hooks.events)
      ensures ok && fetch ==> Contents() == old(Contents())[1..] && count == old(count) - 1
      ensures ok && fetch ==>
                hooks.events == old(hooks.events)
                     + CallEvents(hooks.callHook, onGet, if onGet == null then 0 else onGet.fn, NULL, current)
    {
      if !IsEmpty() {
        var idx := Head();
        e := Some(storage[idx]);
        if fetch {
          DropOldest();
          hooks.Call(onGet, NULL, current);
        }
        ok := true;
      } else {
        e := None;
        ok := false;
      }
    }

    /** The ring update of get on a non-empty queue: the oldest element leaves, the head moves one slot on. */
    method DropOldest()
      requires Valid() && 0 < count
      modifies this
      ensures Valid() && storage == old(storage) && capacity == old(capacity) && index == old(index)
      ensures onPut == old(onPut) && onGet == old(onGet)
      ensures Contents() == old(Contents())[1..] && count == old(count) - 1
    {
      ghost var idx := Head();
      RingDropFirst(storage[..], idx, count, capacity);
      count := count - 1;
      assert Head() == Slot(idx, 1, capacity);
    }
  }
}
