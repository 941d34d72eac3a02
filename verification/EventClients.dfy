/**
 The list of clients that wait for a reader event (PCSC/src/eventhandler.c), kept in
 a simclist of file descriptors.
 */
module EventClients {
  import opened Wrappers
  import opened SimcList

  class Clients {
    const waiting: List<int>

    ghost predicate Valid()
      reads this, waiting, waiting.chain, waiting.spareels
    {
      waiting.Valid() && !waiting.iterActive && waiting.comparator.Some?
      && forall a, b :: waiting.comparator.value(a, b) == 0 <==> a == b
    }

    /** Descriptors in the order in which they asked. */
    ghost function Queue(): seq<int>
      reads this, waiting
    {
      waiting.contents
    }

    constructor ()
      ensures Valid() && Queue() == [] && fresh(waiting.repr)
    {
      waiting := new List<int>();
      new;
      waiting.comparator := Some((a: int, b: int) => (if a < b then 1 else 0) - (if a > b then 1 else 0));
    }

    method Register(fd: int)
      requires Valid()
      modifies waiting.repr
      ensures Valid() && Queue() == old(Queue()) + [fd] && fresh(waiting.repr - old(waiting.repr))
    {
      var _ := waiting.InsertAt(fd, waiting.numels);
    }

    /** Place of the first registration of fd, or -1. */
    method Find(fd: int) returns (pos: int)
      requires Valid()
      ensures -1 <= pos < |Queue()| && (pos >= 0 <==> fd in Queue())
      ensures pos >= 0 ==> Queue()[pos] == fd && fd !in Queue()[..pos]
    {
      pos := waiting.Locate(fd);
      ghost var cmp := waiting.comparator.value;
      assert forall y :: waiting.Matches(fd, y) <==> cmp(fd, y) == 0;
      assert pos >= 0 ==> Queue()[pos] == fd;
      assert forall i :: 0 <= i < (if pos >= 0 then pos else |Queue()|) ==> Queue()[i] != fd;
    }

    /** Removes the first registration of fd, or reports that there is none. */
    method Unregister(fd: int) returns (ok: bool)
      requires Valid()
      modifies waiting.repr
      ensures Valid() && waiting.repr == old(waiting.repr)
      ensures ok <==> fd in old(Queue())
      ensures !ok ==> Queue() == old(Queue())
      ensures ok ==> exists k :: 0 <= k < |old(Queue())| && old(Queue())[k] == fd && fd !in old(Queue())[..k]
                                 && Queue() == old(Queue())[..k] + old(Queue())[k + 1..]
    {
      var pos := Find(fd);
      ok := waiting.DeleteAt(pos);
    }

    /** Signals every waiting client once, in registration order, and forgets them all. */
    method SignalAll() returns (signalled: seq<int>)
      requires Valid()
      modifies waiting.repr
      ensures Valid() && waiting.repr == old(waiting.repr)
      ensures signalled == old(Queue()) && Queue() == []
    {
      signalled := [];
      var _ := waiting.IteratorStart();
      while waiting.IteratorHasNext()
        invariant waiting.Valid() && waiting.iterActive && waiting.contents == old(waiting.contents)
        invariant waiting.repr == old(waiting.repr) && waiting.comparator == old(waiting.comparator)
        invariant waiting.iterPos <= waiting.numels && signalled == waiting.contents[..waiting.iterPos]
        decreases waiting.numels - waiting.iterPos
      {
        var fd := waiting.IteratorNext();
        signalled := signalled + [fd.value];
      }
      var _ := waiting.IteratorStop();
      var _ := waiting.Clear();
    }
  }
}
