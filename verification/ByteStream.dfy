/**
 The input side of the buffered stream: one thread posts buffers, one reads
 bytes, any thread may stop the stream.  Each method below is what one thread
 does while it holds the lock, up to the point where it returns or sleeps.
 */
module ByteStreams {

  import opened Wrappers
  import opened BufferQueues

  /** The bytes of the buffers, in order. */
  function Flat(bs: seq<Buffer>): seq<bv8> {
    if bs == [] then [] else bs[0] + Flat(bs[1..])
  }

  lemma {:induction false} FlatAppend(a: seq<Buffer>, b: seq<Buffer>)
    ensures Flat(a + b) == Flat(a) + Flat(b)
  {
    if a == [] {
      assert a + b == b;
    } else {
      assert (a + b)[1..] == a[1..] + b;
      FlatAppend(a[1..], b);
    }
  }

  /** What is left to read: the rest of the buffer being read, and the buffers in the queue. */
  function Rest(buffer: Buffer, left: nat, queued: seq<Buffer>): seq<bv8>
    requires left <= |buffer|
  {
    buffer[|buffer| - left..] + Flat(queued)
  }

  lemma RestPush(buffer: Buffer, left: nat, queued: seq<Buffer>, b: Buffer)
    requires left <= |buffer|
    ensures Rest(buffer, left, queued + [b]) == Rest(buffer, left, queued) + b
  {
    FlatAppend(queued, [b]);
    assert Flat([b]) == b;
  }

  lemma RestPop(buffer: Buffer, queued: seq<Buffer>, b: Buffer, rest: seq<Buffer>)
    requires queued == [b] + rest
    ensures Rest(buffer, 0, queued) == Rest(b, |b|, rest)
  {
    FlatAppend([b], rest);
    assert Flat([b]) == b;
  }

  lemma RestTake(buffer: Buffer, left: nat, n: nat, queued: seq<Buffer>)
    requires n <= left <= |buffer|
    ensures Rest(buffer, left, queued) == buffer[|buffer| - left..|buffer| - left + n] + Rest(buffer, left - n, queued)
  {
  }

  lemma RestNone(buffer: Buffer)
    ensures Rest(buffer, 0, []) == []
  {
  }

  datatype Answer = Bytes(data: seq<bv8>) | Failed | Sleeping

  class ByteStream {
    const queue: BufferQueue
    var readBuffer: Buffer
    var readLeft: nat
    /** What the poster waits to post, and how much the reader waits to read. */
    var posting: Option<Buffer>
    var reading: Option<nat>
    /** All bytes of the posts that succeeded, and all bytes that reads returned. */
    ghost var accepted: seq<bv8>
    ghost var delivered: seq<bv8>

    ghost predicate Valid()
      reads this, queue, queue.buffers
    {
      && queue.Valid() && readLeft <= |readBuffer|
      && (posting.Some? <==> queue.poster != Absent)
      && (reading.Some? <==> queue.reader != Absent)
      && (reading.Some? ==> readLeft == 0 && reading.value > 0)
      && delivered + Unread() == accepted
    }

    ghost function Unread(): seq<bv8>
      requires queue.Valid() && readLeft <= |readBuffer|
      reads this, queue, queue.buffers
    {
      Rest(readBuffer, readLeft, queue.Contents())
    }

    constructor (capacity: nat)
      ensures Valid() && accepted == [] && delivered == [] && posting.None? && reading.None? && !queue.closed
      ensures fresh(queue) && fresh(queue.buffers)
    {
      queue := new BufferQueue(capacity);
      readBuffer, readLeft, posting, reading, accepted, delivered := [], 0, None, None, [], [];
    }

    // --- the poster ------------------------------------------------------------

    /** `post_data`, begun with `Some` buffer or continued after a wake-up. */
    method Post(data: Option<Buffer>) returns (r: Option<Status>)
      requires Valid() && queue.poster != Asleep && (data.Some? <==> posting.None?)
      modifies this, queue, queue.buffers
      ensures Valid() && delivered == old(delivered) && queue.closed == old(queue.closed) && reading == old(reading)
      ensures r == if old(queue.closed) then Some(IoError) else if |old(queue.Contents())| == queue.capacity then None else Some(Ok)
      ensures r.None? ==> queue.poster == Asleep
      ensures var b := if data.Some? then data.value else old(posting).value;
              && posting == (if r.None? then Some(b) else None)
              && accepted == (if r == Some(Ok) then old(accepted) + b else old(accepted))
    {
      var b := if data.Some? then data.value else posting.value;
      RestPush(readBuffer, readLeft, queue.Contents(), b);
      ghost var unread := Unread();
      r := queue.Push(b);
      posting := if r.None? then Some(b) else None;
      if r == Some(Ok) {
        accepted := accepted + b;
        assert Unread() == unread + b;
        assert delivered + Unread() == (delivered + unread) + b;
      }
    }

    // --- the reader ------------------------------------------------------------

    /**
     `read`, begun with `Some` length or continued after a wake-up.  What it
     returns is what comes next in the stream; it returns less than was asked
     for only when there is no more, nothing only when nothing was asked for,
     and fails only when the stream is stopped and drained.
     */
    method Read(length: Option<nat>) returns (answer: Answer)
      requires Valid() && queue.reader != Asleep && (length.Some? <==> reading.None?)
      modifies this, queue
      ensures Valid() && accepted == old(accepted) && queue.closed == old(queue.closed) && posting == old(posting)
      ensures var wanted := if length.Some? then length.value else old(reading).value;
              && (answer.Bytes? ==>
                    && old(Unread()) == answer.data + Unread() && delivered == old(delivered) + answer.data && reading.None?
                    && |answer.data| <= wanted && (wanted > 0 ==> answer.data != [])
                    && (|answer.data| < wanted ==> Unread() == [] && queue.Contents() == []))
              && (answer == Failed <==> wanted > 0 && old(Unread()) == [] && queue.closed)
              && (answer == Sleeping <==> wanted > 0 && old(Unread()) == [] && !queue.closed)
              && (!answer.Bytes? ==> Unread() == [] && queue.Contents() == [] && delivered == old(delivered))
              && (answer == Failed ==> reading.None?)
              && (answer == Sleeping ==> reading == Some(wanted) && queue.reader == Asleep)
    {
      var wanted := if length.Some? then length.value else reading.value;
      ghost var before := Unread();
      var got := Collect(wanted);
      assert |got| == 0 && wanted > 0 ==> before == Unread() == [];
      answer := Finish(got, wanted);
    }

    /** The end of `read`, with what was collected. */
    method Finish(got: seq<bv8>, wanted: nat) returns (answer: Answer)
      requires queue.Valid() && readLeft <= |readBuffer| && (posting.Some? <==> queue.poster != Absent)
      requires (queue.reader == Asleep <==> |got| == 0 && wanted > 0 && !queue.closed) && queue.reader != Woken
      requires |got| < wanted ==> readLeft == 0
      requires delivered + (got + Unread()) == accepted
      modifies this`reading, this`delivered
      ensures Valid() && Unread() == old(Unread())
      ensures answer == if |got| > 0 || wanted == 0 then Bytes(got) else if queue.closed then Failed else Sleeping
      ensures delivered == old(delivered) + got && reading == (if answer == Sleeping then Some(wanted) else None)
    {
      ghost var rest := Unread();
      assert delivered + (got + rest) == (delivered + got) + rest;
      var nothing := |got| == 0 && wanted > 0;
      answer := if !nothing then Bytes(got) else if queue.reader == Asleep then Sleeping else Failed;
      reading := if answer == Sleeping then Some(wanted) else None;
      delivered := delivered + got;
      assert Unread() == rest;
    }

    /** The loop of `read`: it ends with all that was wanted, with all there is, or asleep with nothing. */
    method Collect(wanted: nat) returns (got: seq<bv8>)
      requires queue.Valid() && readLeft <= |readBuffer| && queue.reader != Asleep
      modifies this`readBuffer, this`readLeft, queue
      ensures queue.Valid() && readLeft <= |readBuffer| && queue.closed == old(queue.closed)
      ensures (queue.poster == Absent) == old(queue.poster == Absent)
      ensures |got| <= wanted && got + Unread() == old(Unread())
      ensures |got| < wanted ==> Unread() == [] && queue.Contents() == [] && readLeft == 0
      ensures queue.reader == if |got| == 0 && wanted > 0 && !queue.closed then Asleep else Absent
    {
      got := [];
      queue.reader := Absent;
      while |got| < wanted
        invariant queue.Valid() && readLeft <= |readBuffer| && queue.closed == old(queue.closed)
        invariant queue.reader == Absent && (queue.poster == Absent) == old(queue.poster == Absent)
        invariant |got| <= wanted && got + Unread() == old(Unread())
        decreases wanted - |got|, queue.count
      {
        if readLeft > 0 {
          var bytes := Take(wanted - |got|);
          assert got + (bytes + Unread()) == (got + bytes) + Unread();
          got := got + bytes;
        } else {
          var r := Refill(|got| == 0);
          if r != Some(Ok) {
            break;
          }
        }
      }
    }

    /** Copies what fits from the buffer being read. */
    method Take(wanted: nat) returns (bytes: seq<bv8>)
      requires queue.Valid() && readLeft <= |readBuffer|
      modifies this`readLeft
      ensures readLeft <= |readBuffer| && old(Unread()) == bytes + Unread()
      ensures |bytes| <= wanted && (wanted > 0 && old(readLeft) > 0 ==> bytes != [])
    {
      var avail := if wanted < readLeft then wanted else readLeft;
      var from := |readBuffer| - readLeft;
      bytes := readBuffer[from..from + avail];
      RestTake(readBuffer, readLeft, avail, queue.Contents());
      readLeft := readLeft - avail;
    }

    /** Pops the next buffer, sleeping for it only when nothing has been read yet. */
    method Refill(blocking: bool) returns (r: Option<Status>)
      requires queue.Valid() && readLeft == 0 && queue.reader == Absent
      modifies this`readBuffer, this`readLeft, queue
      ensures queue.Valid() && readLeft <= |readBuffer| && Unread() == old(Unread()) && queue.closed == old(queue.closed)
      ensures (queue.poster == Absent) == old(queue.poster == Absent)
      ensures r == Some(Ok) ==> queue.count < old(queue.count) && queue.reader == Absent
      ensures r != Some(Ok) ==> Unread() == [] && queue.Contents() == [] && readLeft == 0
      ensures r != Some(Ok) ==> r == if queue.closed then Some(IoError) else if blocking then None else Some(Again)
      ensures queue.reader == if r.None? then Asleep else Absent
    {
      var b;
      ghost var queued := queue.Contents();
      if blocking {
        r, b := queue.Pop();
      } else {
        var s;
        s, b := queue.TryPop();
        r := Some(s);
      }
      if r == Some(Ok) {
        RestPop(readBuffer, queued, b, queue.Contents());
        readBuffer, readLeft := b, |b|;
      } else {
        RestNone(readBuffer);
      }
    }

    // --- others ----------------------------------------------------------------

    /** `forceStop`, on the input side. */
    method ForceStop()
      requires Valid()
      modifies this, queue
      ensures Valid() && queue.closed && Unread() == old(Unread()) && accepted == old(accepted) && delivered == old(delivered)
      ensures queue.poster != Asleep && queue.reader != Asleep && posting == old(posting) && reading == old(reading)
    {
      queue.Close();
    }

    /** Threads may wake without being notified. */
    method SpuriousWake(poster: bool)
      requires Valid()
      modifies queue
      ensures Valid() && queue.closed == old(queue.closed)
    {
      if poster {
        queue.WakePoster();
      } else {
        queue.WakeReader();
      }
    }
  }

  // --- whole runs ------------------------------------------------------------

  /** Who takes the lock next, and what for. */
  datatype Turn = Post(data: Buffer) | PostOn | Read(length: nat) | ReadOn | Stop | Wake(poster: bool)

  /** A thread that is asleep cannot take its turn; one that is in a call continues it. */
  method Take(s: ByteStream, turn: Turn)
    requires s.Valid()
    modifies s, s.queue, s.queue.buffers
    ensures s.Valid()
  {
    match turn
    case Post(data) =>
      if s.posting.None? {
        var _ := s.Post(Some(data));
      }
    case PostOn =>
      if s.posting.Some? && s.queue.poster != Asleep {
        var _ := s.Post(None);
      }
    case Read(length) =>
      if s.reading.None? {
        var _ := s.Read(Some(length));
      }
    case ReadOn =>
      if s.reading.Some? && s.queue.reader != Asleep {
        var _ := s.Read(None);
      }
    case Stop => s.ForceStop();
    case Wake(poster) => s.SpuriousWake(poster);
  }

  /**
   Any interleaving: what was read, what is left of the current buffer and
   what is queued are together exactly what was accepted, in order, and a
   thread sleeps unnotified only while it cannot go on.
   */
  method Run(capacity: nat, turns: seq<Turn>) returns (s: ByteStream)
    ensures s.Valid() && s.delivered + s.Unread() == s.accepted
    ensures s.queue.reader == Asleep ==> s.queue.Contents() == [] && !s.queue.closed
    ensures s.queue.poster == Asleep ==> |s.queue.Contents()| == s.queue.capacity && !s.queue.closed
  {
    s := new ByteStream(capacity);
    for k := 0 to |turns|
      invariant s.Valid() && fresh(s) && fresh(s.queue) && fresh(s.queue.buffers)
    {
      Take(s, turns[k]);
    }
  }
}
