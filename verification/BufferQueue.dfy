/** The bounded queue of buffers between the thread that posts data and the one that reads it. */
module BufferQueues {

  import opened Wrappers

  type Buffer = seq<bv8>

  datatype Status = Ok | Again | IoError

  /** A thread at a condition variable: not there, asleep, or notified and waiting for the lock. */
  datatype Waiter = Absent | Asleep | Woken

  function Notified(w: Waiter): Waiter {
    if w == Asleep then Woken else w
  }

  /** The buffers in the ring, oldest first. */
  function Ring(cells: seq<Buffer>, pos: nat, count: nat): seq<Buffer>
    requires pos < |cells| || count == 0
    requires count <= |cells|
    decreases count
  {
    if count == 0 then []
    else [cells[pos]] + Ring(cells, if pos + 1 >= |cells| then pos + 1 - |cells| else pos + 1, count - 1)
  }

  function Slot(n: nat, pos: nat, i: nat): nat
    requires pos < n && i <= n
  {
    if pos + i >= n then pos + i - n else pos + i
  }

  lemma {:induction false} RingAt(cells: seq<Buffer>, pos: nat, count: nat, i: nat)
    requires pos < |cells| && count <= |cells| && i < count
    ensures |Ring(cells, pos, count)| == count && Ring(cells, pos, count)[i] == cells[Slot(|cells|, pos, i)]
    decreases count
  {
    var next := Slot(|cells|, pos, 1);
    if count > 1 {
      RingAt(cells, next, count - 1, if i == 0 then 0 else i - 1);
    }
  }

  lemma {:induction false} RingLength(cells: seq<Buffer>, pos: nat, count: nat)
    requires (pos < |cells| || count == 0) && count <= |cells|
    ensures |Ring(cells, pos, count)| == count
  {
    if count > 0 {
      RingAt(cells, pos, count, 0);
    }
  }

  /** Writing the cell after the last one appends. */
  lemma RingPush(cells: seq<Buffer>, pos: nat, count: nat, b: Buffer)
    requires pos < |cells| && count < |cells|
    ensures Ring(cells[Slot(|cells|, pos, count) := b], pos, count + 1) == Ring(cells, pos, count) + [b]
  {
    var cells' := cells[Slot(|cells|, pos, count) := b];
    var r, r' := Ring(cells, pos, count), Ring(cells', pos, count + 1);
    RingLength(cells, pos, count);
    RingLength(cells', pos, count + 1);
    forall i | 0 <= i <= count
      ensures r'[i] == (r + [b])[i]
    {
      RingAt(cells', pos, count + 1, i);
      if i < count {
        RingAt(cells, pos, count, i);
      }
    }
  }

  class BufferQueue {
    const capacity: nat
    const buffers: array<Buffer>
    var pos: nat
    var count: nat
    var closed: bool
    /** The reader, waiting until something can be popped, and the poster, waiting for room. */
    var reader: Waiter
    var poster: Waiter

    ghost predicate Valid()
      reads this, buffers
    {
      && buffers.Length == capacity
      && (pos < capacity || (capacity == 0 && pos == 0))
      && count <= capacity
      // Nobody sleeps unnotified who could go on.
      && (reader == Asleep ==> count == 0 && !closed)
      && (poster == Asleep ==> count == capacity && !closed)
    }

    ghost function Contents(): (s: seq<Buffer>)
      requires Valid()
      reads this, buffers
      ensures |s| == count
    {
      RingLength(buffers[..], pos, count);
      Ring(buffers[..], pos, count)
    }

    constructor (capacity: nat)
      ensures Valid() && this.capacity == capacity && Contents() == [] && !closed && reader == Absent && poster == Absent && fresh(buffers)
    {
      this.capacity := capacity;
      buffers := new Buffer[capacity](_ => []);
      pos, count, closed, reader, poster := 0, 0, false, Absent, Absent;
    }

    method TryPush(b: Buffer) returns (r: Status)
      requires Valid()
      modifies this, buffers
      ensures Valid() && closed == old(closed) && poster == old(poster)
      ensures r == if old(closed) then IoError else if |old(Contents())| == capacity then Again else Ok
      ensures r == Ok ==> Contents() == old(Contents()) + [b] && reader == Notified(old(reader))
      ensures r != Ok ==> Contents() == old(Contents()) && reader == old(reader)
    {
      if closed {
        return IoError;
      }
      if count >= capacity {
        return Again;
      }
      var p := pos + count;
      if p >= capacity {
        p := p - capacity;
      }
      RingPush(buffers[..], pos, count, b);
      buffers[p] := b;
      assert buffers[..] == old(buffers[..])[p := b];
      if count == 0 {
        reader := Notified(reader);
      }
      count := count + 1;
      r := Ok;
    }

    /** One pass of `push_locked`: with no room the poster goes to sleep, and the answer is nothing. */
    method Push(b: Buffer) returns (r: Option<Status>)
      requires Valid() && poster != Asleep
      modifies this, buffers
      ensures Valid() && closed == old(closed)
      ensures r == if old(closed) then Some(IoError) else if |old(Contents())| == capacity then None else Some(Ok)
      ensures poster == if r.None? then Asleep else Absent
      ensures r == Some(Ok) ==> Contents() == old(Contents()) + [b] && reader == Notified(old(reader))
      ensures r != Some(Ok) ==> Contents() == old(Contents()) && reader == old(reader)
    {
      poster := Absent;
      if count == capacity {
        if closed {
          return Some(IoError);
        }
        poster := Asleep;
        return None;
      }
      var s := TryPush(b);
      r := Some(s);
    }

    method TryPop() returns (r: Status, b: Buffer)
      requires Valid()
      modifies this
      ensures Valid() && closed == old(closed) && reader == old(reader)
      ensures r == if old(Contents()) != [] then Ok else if old(closed) then IoError else Again
      ensures r == Ok ==> old(Contents()) == [b] + Contents()
      ensures poster == if r == Ok && |old(Contents())| == capacity then Notified(old(poster)) else old(poster)
      ensures r != Ok ==> Contents() == old(Contents())
    {
      b := [];
      if count == 0 {
        return if closed then IoError else Again, b;
      }
      b := buffers[pos];
      var p := pos + 1;
      if p >= capacity {
        p := p - capacity;
      }
      pos := p;
      if count == capacity {
        poster := Notified(poster);
      }
      count := count - 1;
      r := Ok;
    }

    /** One pass of `pop_locked`: with nothing to pop the reader goes to sleep, and the answer is nothing. */
    method Pop() returns (r: Option<Status>, b: Buffer)
      requires Valid() && reader != Asleep
      modifies this
      ensures Valid() && closed == old(closed)
      ensures r == if old(Contents()) != [] then Some(Ok) else if old(closed) then Some(IoError) else None
      ensures reader == if r.None? then Asleep else Absent
      ensures r == Some(Ok) ==> old(Contents()) == [b] + Contents()
      ensures poster == if r == Some(Ok) && |old(Contents())| == capacity then Notified(old(poster)) else old(poster)
      ensures r != Some(Ok) ==> Contents() == old(Contents())
    {
      reader := Absent;
      b := [];
      if count == 0 {
        if closed {
          return Some(IoError), b;
        }
        reader := Asleep;
        return None, b;
      }
      var s;
      s, b := TryPop();
      r := Some(s);
    }

    method Close()
      requires Valid()
      modifies this
      ensures Valid() && closed && Contents() == old(Contents())
      ensures reader == Notified(old(reader)) && poster == Notified(old(poster))
    {
      closed := true;
      if count == capacity {
        poster := Notified(poster);
      }
      if count == 0 {
        reader := Notified(reader);
      }
    }

    /** A waiter may also wake for no reason. */
    method WakeReader()
      requires Valid()
      modifies this
      ensures Valid() && Contents() == old(Contents()) && closed == old(closed)
      ensures reader == Notified(old(reader)) && poster == old(poster)
    {
      reader := Notified(reader);
    }

    method WakePoster()
      requires Valid()
      modifies this
      ensures Valid() && Contents() == old(Contents()) && closed == old(closed)
      ensures poster == Notified(old(poster)) && reader == old(reader)
    {
      poster := Notified(poster);
    }
  }
}
