// mu_spsc, the interrupt-safe single-producer single-consumer queue the
// scheduler uses for tasks queued from interrupt level.  Only its
// observable behaviour is modelled: a bounded FIFO whose storage size must
// be a power of two greater than one and which holds one item fewer than
// that size.

module MuSpsc {
  import opened Common

  datatype SpscErr = SpscNone | SpscSize | SpscFull | SpscEmpty

  predicate IsPowerOfTwo(n: nat)
    decreases n
  {
    n == 1 || (n > 1 && n % 2 == 0 && IsPowerOfTwo(n / 2))
  }

  class Spsc<T> {
    var items: seq<T>
    var capacity: nat

    ghost predicate Valid()
      reads this
    {
      |items| <= capacity
    }

    constructor ()
      ensures Valid() && items == [] && capacity == 0
    {
      items := [];
      capacity := 0;
    }

    /** mu_spsc_init: rejects a size that is not a power of two above one; otherwise empty, capacity size - 1. */
    method Init(size: nat) returns (err: SpscErr)
      requires Valid()
      modifies this
      ensures Valid()
      ensures err == SpscSize <==> !(size > 1 && IsPowerOfTwo(size))
      ensures err != SpscSize ==> err == SpscNone && items == [] && capacity == size - 1
      ensures err == SpscSize ==> items == old(items) && capacity == old(capacity)
    {
      if size <= 1 || !IsPowerOfTwo(size) {
        err := SpscSize;
        return;
      }
      items := [];
      capacity := size - 1;
      err := SpscNone;
    }

    function Capacity(): nat
      reads this
    {
      capacity
    }

    /** mu_spsc_put: a full queue is unchanged; otherwise the item joins the back. */
    method Put(item: T) returns (err: SpscErr)
      requires Valid()
      modifies this
      ensures Valid() && capacity == old(capacity)
      ensures err == SpscFull <==> |old(items)| == capacity
      ensures err != SpscFull ==> err == SpscNone && items == old(items) + [item]
      ensures err == SpscFull ==> items == old(items)
    {
      if |items| == capacity {
        err := SpscFull;
      } else {
        items := items + [item];
        err := SpscNone;
      }
    }

    /** mu_spsc_get: an empty queue yields nothing; otherwise the oldest item is removed and returned. */
    method Get() returns (err: SpscErr, item: Option<T>)
      requires Valid()
      modifies this
      ensures Valid() && capacity == old(capacity)
      ensures err == SpscEmpty <==> old(items) == []
      ensures err == SpscEmpty ==> item == None && items == old(items)
      ensures err != SpscEmpty ==> err == SpscNone && item == Some(old(items)[0]) && items == old(items)[1..]
    {
      if items == [] {
        err := SpscEmpty;
        item := None;
      } else {
        item := Some(items[0]);
        items := items[1..];
        err := SpscNone;
      }
    }
  }
}
