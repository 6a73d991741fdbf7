/** The sliding queue of base/queue.h and the write queue of a connection (event/nio.c). */
module WriteQueue {
  import opened Bytes
  import opened Sequences

  // ---------------------------------------------------------------- base/queue.h

  const INITIAL_SIZE: nat := 16

  /** `QUEUE_DECL`: the elements are a window of the array. */
  class Queue<T(0)> {
    var ptr: array<T>
    var offset: nat
    var size: nat

    ghost predicate Valid() reads this {
      offset + size <= ptr.Length && (offset < ptr.Length || ptr.Length == 0)
    }

    ghost function Contents(): seq<T>
      requires Valid()
      reads this, ptr
    {
      ptr[offset..offset + size]
    }

    constructor ()
      ensures Valid() && Contents() == [] && ptr.Length == 0 && fresh(ptr)
    {
      ptr := new T[0];
      offset, size := 0, 0;
    }

    /** `_resize`: as much of the array's contents is kept as the new one has room for, and size zero stands
        for the initial size. */
    method Resize(maxsize: nat)
      modifies this`ptr
      ensures fresh(ptr) && ptr.Length == if maxsize == 0 then INITIAL_SIZE else maxsize
      ensures var n := Least(ptr.Length, old(ptr.Length)); ptr[..n] == old(ptr[..n])
    {
      var resized := new T[if maxsize == 0 then INITIAL_SIZE else maxsize];
      for i := 0 to Least(resized.Length, ptr.Length)
        invariant ptr == old(ptr) && ptr[..] == old(ptr[..]) && resized[..i] == ptr[..i]
      {
        resized[i] := ptr[i];
      }
      ptr := resized;
    }

    /** The window slides to the front. */
    method SlideDown()
      requires Valid()
      modifies this`offset, ptr
      ensures Valid() && offset == 0 && Contents() == old(Contents())
    {
      MoveDown(ptr, offset, size);
      offset := 0;
    }

    /** `_push_back`; an empty array first gets room for four elements. */
    method PushBack(e: T)
      requires Valid()
      modifies this, ptr
      ensures Valid() && Contents() == old(Contents()) + [e] && (ptr == old(ptr) || fresh(ptr))
    {
      MakeRoom();
      ghost var before := Contents();
      ptr[offset + size] := e;
      size := size + 1;
      assert Contents() == before + [e];
    }

    /** A full array is doubled. */
    method Grow()
      requires Valid() && size == ptr.Length > 0
      modifies this`ptr
      ensures Valid() && Contents() == old(Contents()) && fresh(ptr) && size < ptr.Length
    {
      ghost var all := ptr[..size];
      Resize(ptr.Length * 2);
      assert ptr[..size] == all;
    }

    method MakeRoom()
      requires Valid()
      modifies this`ptr, this`offset, ptr
      ensures Valid() && Contents() == old(Contents()) && (ptr == old(ptr) || fresh(ptr))
      ensures offset + size < ptr.Length
    {
      if ptr.Length == 0 {
        Resize(4);
      } else if size == ptr.Length {
        Grow();
      } else if offset + size == ptr.Length {
        SlideDown();
      }
    }

    /** `_pop_front`. */
    method PopFront()
      requires Valid() && size > 0
      modifies this`size, this`offset
      ensures Valid() && Contents() == old(Contents())[1..]
    {
      size := size - 1;
      offset := offset + 1;
      if offset == ptr.Length {
        offset := 0;
      }
    }

    /** A write through the pointer that `_front` returns. */
    method SetFront(e: T)
      requires Valid() && size > 0
      modifies ptr
      ensures Valid() && Contents() == [e] + old(Contents())[1..]
    {
      ptr[offset] := e;
    }
  }

  // ---------------------------------------------------------------- the bytes in the queue

  /** `offset_buf_t`. */
  datatype Pending = Pending(bytes: seq<Byte>, offset: nat)

  /** Something of each buffer is still to be sent. */
  ghost predicate Sane(q: seq<Pending>) {
    forall i :: 0 <= i < |q| ==> q[i].offset < |q[i].bytes|
  }

  ghost function Unsent(q: seq<Pending>): (r: seq<Byte>)
    requires Sane(q)
  {
    if |q| == 0 then [] else q[0].bytes[q[0].offset..] + Unsent(q[1..])
  }

  lemma {:induction false} UnsentPush(q: seq<Pending>, b: Pending)
    requires Sane(q) && b.offset < |b.bytes|
    ensures Sane(q + [b]) && Unsent(q + [b]) == Unsent(q) + b.bytes[b.offset..]
    decreases |q|
  {
    if |q| == 0 {
      assert (q + [b])[1..] == [];
    } else {
      UnsentPush(q[1..], b);
      assert (q + [b])[1..] == q[1..] + [b];
    }
  }

  /** The first buffer with n more of its bytes sent. */
  function Advanced(q: seq<Pending>, n: nat): seq<Pending>
    requires |q| > 0
  {
    [q[0].(offset := q[0].offset + n)] + q[1..]
  }

  lemma UnsentSend(q: seq<Pending>, n: nat)
    requires |q| > 0 && Sane(q) && n < |q[0].bytes| - q[0].offset
    ensures Sane(Advanced(q, n)) && n <= |Unsent(q)| && Unsent(Advanced(q, n)) == Unsent(q)[n..]
    ensures q[0].bytes[q[0].offset..][..n] == Unsent(q)[..n]
  {
    var b := q[0];
    assert Advanced(q, n)[1..] == q[1..];
    assert b.bytes[b.offset..][n..] == b.bytes[b.offset + n..];
    DropInFirst(b.bytes[b.offset..], Unsent(q[1..]), n);
  }

  lemma DropInFirst(x: seq<Byte>, y: seq<Byte>, n: nat)
    requires n <= |x|
    ensures (x + y)[n..] == x[n..] + y && (x + y)[..n] == x[..n]
  {
  }

  /** The whole first buffer is sent. */
  lemma UnsentPop(q: seq<Pending>, n: nat)
    requires |q| > 0 && Sane(q) && n == |q[0].bytes| - q[0].offset
    ensures Sane(q[1..]) && n <= |Unsent(q)| && Unsent(q[1..]) == Unsent(q)[n..]
    ensures q[0].bytes[q[0].offset..][..n] == Unsent(q)[..n]
  {
  }

  // ---------------------------------------------------------------- a connection

  /** What the system says to a write: it took some bytes (none when the peer is gone), or try again, or an
      error. */
  datatype Answer = Took(n: nat) | Again | Failed(errno: nat)

  /** An `hio_t` as far as writing is concerned. */
  class Io {
    const queue: Queue<Pending>
    var queueBytes: nat
    var wantsWrite: bool
    var close: bool
    var closed: bool
    var error: nat
    /** All that `hio_write` has accepted, and all that the socket has taken. */
    ghost var accepted: seq<Byte>
    ghost var sent: seq<Byte>
    /** `hio_close` was called again while a close was waiting for the queue. */
    ghost var repeated: bool

    ghost predicate Valid() reads this, queue, queue.ptr {
      && queue.Valid()
      && (!closed ==> Consistent(queue.Contents(), accepted, sent, queueBytes))
      && (!closed && queue.size > 0 ==> wantsWrite)
      && (!closed ==> !repeated)
      && (closed && error == 0 ==> (sent == accepted <==> !repeated))
    }

    constructor ()
      ensures Valid() && !closed && !close && error == 0 && !repeated && accepted == [] && sent == []
      ensures fresh(queue) && fresh(queue.ptr)
    {
      queue := new Queue();
      queueBytes, wantsWrite, close, closed, error := 0, false, false, false, 0;
      accepted, sent, repeated := [], [], false;
    }

    // -------------------------------------------------------------- writing

    /** The part of `hio_write` under the lock. The answer counts only when the queue is empty; `shut` tells
        that `hio_close` is to follow. */
    method Write(buf: seq<Byte>, answer: Answer) returns (n: int, shut: bool)
      requires Valid() && (answer.Failed? ==> answer.errno > 0)
      modifies this, queue, queue.ptr
      ensures Valid() && (queue.ptr == old(queue.ptr) || fresh(queue.ptr))
      ensures closed == old(closed) && close == old(close) && repeated == old(repeated)
      ensures old(closed) ==> n == -1 && !shut
      ensures shut <==>
              !old(closed) && old(queue.size) == 0
              && (answer.Failed? || (answer.Took? && Least(answer.n, |buf|) == 0))
      ensures old(closed) || shut ==> accepted == old(accepted) && sent == old(sent)
      ensures error == if shut && answer.Failed? then answer.errno else old(error)
      ensures !old(closed) && !shut ==> n == if old(queue.size) == 0 && answer.Took? then Least(answer.n, |buf|) else 0
      ensures !old(closed) && !shut ==> accepted == old(accepted) + buf && sent == old(sent) + buf[..n]
    {
      if closed {
        return -1, false;
      }
      n, shut := 0, false;
      if queue.size == 0 {
        n, shut := Try(buf, answer);
        if shut {
          return;
        }
        if n == |buf| && n > 0 {
          assert buf[..n] == buf;
          return;
        }
        wantsWrite := true;
      }
      TakenSoFar(old(accepted), old(sent), buf, n);
      Enqueue(buf, n);
    }

    static lemma TakenSoFar(a: seq<Byte>, s: seq<Byte>, buf: seq<Byte>, n: nat)
      requires n <= |buf|
      ensures a + buf[..n] + buf[n..] == a + buf && a + buf[..0] == a && s + buf[..0] == s
    {
      Rejoin(a, buf, n);
    }

    /** The direct attempt when nothing is queued. */
    method Try(buf: seq<Byte>, answer: Answer) returns (n: int, shut: bool)
      requires Valid() && !closed && queue.size == 0 && (answer.Failed? ==> answer.errno > 0)
      modifies this`error, this`accepted, this`sent
      ensures Valid() && (shut <==> answer.Failed? || (answer.Took? && Least(answer.n, |buf|) == 0))
      ensures shut ==> accepted == old(accepted) && sent == old(sent)
      ensures error == if answer.Failed? then answer.errno else old(error)
      ensures !shut ==> n == (if answer.Took? then Least(answer.n, |buf|) else 0)
      ensures !shut ==> accepted == old(accepted) + buf[..n] && sent == old(sent) + buf[..n]
    {
      n, shut := 0, false;
      match answer {
        case Again =>
        case Failed(errno) =>
          error := errno;
          return -1, true;
        case Took(k) =>
          n := Least(k, |buf|);
          if n == 0 {
            return 0, true;
          }
      }
      Sent(buf, n);
    }

    /** The socket has taken n bytes past an empty queue. */
    ghost method Sent(buf: seq<Byte>, n: nat)
      requires Valid() && !closed && queue.size == 0 && n <= |buf|
      modifies this`accepted, this`sent
      ensures Valid() && accepted == old(accepted) + buf[..n] && sent == old(sent) + buf[..n]
    {
      accepted := accepted + buf[..n];
      sent := sent + buf[..n];
    }

    /** What the socket has not taken goes to the queue. */
    method Enqueue(buf: seq<Byte>, n: nat)
      requires Valid() && !closed && wantsWrite && n <= |buf|
      modifies this`queueBytes, this`accepted, queue, queue.ptr
      ensures Valid() && (queue.ptr == old(queue.ptr) || fresh(queue.ptr))
      ensures accepted == old(accepted) + buf[n..]
    {
      accepted := accepted + buf[n..];
      if n < |buf| {
        UnsentPush(queue.Contents(), Pending(buf, n));
        assert sent + Unsent(queue.Contents()) + buf[n..] == sent + (Unsent(queue.Contents()) + buf[n..]);
        queue.PushBack(Pending(buf, n));
        queueBytes := queueBytes + |buf| - n;
      }
    }

    /** One turn of the loop in `nio_write`: the rest of the first buffer is offered to the socket. */
    method SendFront(answer: Answer) returns (go: bool, shut: bool)
      requires Valid() && !closed && queue.size > 0 && (answer.Failed? ==> answer.errno > 0)
      modifies this`queueBytes, this`sent, this`error, queue, queue.ptr
      ensures Valid() && queue.ptr == old(queue.ptr)
      ensures go ==> !shut && queue.size == old(queue.size) - 1
      ensures !go ==> queue.size == old(queue.size)
      ensures answer.Took? ==> var b := old(queue.Contents()[0]);
              sent == old(sent) + b.bytes[b.offset..][..Least(answer.n, |b.bytes| - b.offset)]
      ensures answer.Took? ==> var b := old(queue.Contents()[0]); go <==> answer.n >= |b.bytes| - b.offset
      ensures error == if answer.Failed? then answer.errno else old(error)
      ensures shut <==> answer.Failed? || answer == Took(0)
      ensures shut || answer.Again? ==> !go && sent == old(sent)
    {
      go, shut := false, false;
      var b := queue.ptr[queue.offset];
      var len := |b.bytes| - b.offset;
      match answer {
        case Again =>
        case Failed(errno) =>
          error := errno;
          shut := true;
        case Took(k) =>
          var n := Least(k, len);
          if n == 0 {
            shut := true;
          } else {
            go := Gone(b, n);
          }
      }
    }

    /** n bytes of the first buffer have been sent. */
    method Gone(b: Pending, n: nat) returns (all: bool)
      requires Valid() && !closed && queue.size > 0 && b == queue.Contents()[0] && 0 < n <= |b.bytes| - b.offset
      modifies this`queueBytes, this`sent, queue, queue.ptr
      ensures Valid() && queue.ptr == old(queue.ptr)
      ensures all == (n == |b.bytes| - b.offset) && queue.size == old(queue.size) - if all then 1 else 0
      ensures sent == old(sent) + b.bytes[b.offset..][..n]
    {
      all := n == |b.bytes| - b.offset;
      if all {
        GoneWhole(b, n);
      } else {
        GonePart(b, n);
      }
    }

    method GoneWhole(b: Pending, n: nat)
      requires Valid() && !closed && queue.size > 0 && b == queue.Contents()[0] && n == |b.bytes| - b.offset
      modifies this`queueBytes, this`sent, queue
      ensures Valid() && queue.ptr == old(queue.ptr) && queue.size == old(queue.size) - 1
      ensures sent == old(sent) + b.bytes[b.offset..][..n]
    {
      ghost var q := queue.Contents();
      UnsentPop(q, n);
      SentOn(q, q[1..], accepted, sent, queueBytes, n, b.bytes[b.offset..][..n]);
      queue.PopFront();
      sent := sent + b.bytes[b.offset..][..n];
      queueBytes := queueBytes - n;
    }

    method GonePart(b: Pending, n: nat)
      requires Valid() && !closed && queue.size > 0 && b == queue.Contents()[0] && 0 < n < |b.bytes| - b.offset
      modifies this`queueBytes, this`sent, queue.ptr
      ensures Valid() && sent == old(sent) + b.bytes[b.offset..][..n]
    {
      ghost var q, piece := queue.Contents(), b.bytes[b.offset..][..n];
      UnsentSend(q, n);
      SentOn(q, Advanced(q, n), accepted, sent, queueBytes, n, piece);
      queue.SetFront(b.(offset := b.offset + n));
      assert queue.Contents() == Advanced(q, n);
      sent := sent + piece;
      queueBytes := queueBytes - n;
    }

    // -------------------------------------------------------------- the loop's side

    /** The part of `nio_write` under the lock; os gives the system's answers. */
    method Flush(os: nat -> Answer) returns (shut: bool)
      requires Valid() && !closed && forall i :: os(i).Failed? ==> os(i).errno > 0
      modifies this`queueBytes, this`sent, this`error, this`close, queue, queue.ptr
      ensures Valid() && queue.ptr == old(queue.ptr) && old(sent) <= sent
      ensures queue.size == 0 && error == old(error) ==> sent == accepted && shut == old(close) && !close
      ensures queue.size > 0 ==> close == old(close)
      ensures queue.size > 0 && shut ==> exists i :: os(i) == Took(0) || os(i).Failed?
    {
      var i := 0;
      shut := false;
      while queue.size > 0
        invariant Valid() && queue.ptr == old(queue.ptr) && old(sent) <= sent && error == old(error)
                  && close == old(close) && !shut
        decreases queue.size
      {
        var go;
        go, shut := SendFront(os(i));
        if !go {
          return;
        }
        i := i + 1;
      }
      if close {
        close := false;
        shut := true;
      }
    }

    /** The write part of `hio_handle_events` up to `nio_write`: an empty queue needs no more events. */
    method Writable()
      requires Valid() && !closed
      modifies this`wantsWrite
      ensures Valid() && wantsWrite == (old(wantsWrite) && queue.size > 0)
    {
      if queue.size == 0 {
        wantsWrite := false;
      }
    }

    /** `hio_close` on the loop's thread: it waits for the queue, unless there was an error or it has waited
        before. */
    method Close()
      requires Valid()
      modifies this`close, this`closed, this`wantsWrite, this`repeated, queue
      ensures Valid() && queue.ptr == old(queue.ptr)
      ensures closed <==> old(closed) || old(queue.size) == 0 || error != 0 || old(close)
      ensures !closed ==> close && queue.size == old(queue.size) && wantsWrite
      ensures closed && error == 0 ==> (sent == accepted <==> !repeated)
      ensures !old(closed) ==> (repeated <==> old(close) && old(queue.size) > 0 && error == 0)
    {
      if closed {
        return;
      }
      if queue.size > 0 && error == 0 {
        if !close {
          close := true;
          return;
        }
        repeated := true;
      }
      closed := true;
      Done();
    }

    /** `hio_done`. */
    method Done()
      requires Valid() && closed
      modifies this`wantsWrite, queue
      ensures Valid() && queue.ptr == old(queue.ptr) && queue.size == 0 && !wantsWrite
    {
      wantsWrite := false;
      while queue.size > 0
        invariant Valid() && queue.ptr == old(queue.ptr) && !wantsWrite
        decreases queue.size
      {
        queue.PopFront();
      }
    }

    /** `__close_timeout_cb`. */
    method TimedOut(etimedout: nat)
      requires Valid() && etimedout > 0
      modifies this`error, this`close, this`closed, this`wantsWrite, this`repeated, queue
      ensures Valid() && queue.ptr == old(queue.ptr) && error == etimedout && closed
    {
      error := etimedout;
      Close();
    }

    /** One critical section. */
    method Take(s: Step)
      requires Valid() && Plausible(s) && sent <= accepted
      modifies this, queue, queue.ptr
      ensures Valid() && (queue.ptr == old(queue.ptr) || fresh(queue.ptr)) && sent <= accepted
    {
      match s {
        case DoWrite(buf, answer) =>
          var n, shut := Write(buf, answer);
        case DoWritable => if !closed { Writable(); }
        case DoFlush(os) => if !closed { var shut := Flush(os); }
        case DoClose => Close();
        case DoTimeOut => TimedOut(110);
      }
    }
  }

  function Least(a: nat, b: nat): (r: nat)
    ensures r <= a && r <= b && (r == a || r == b)
  {
    if a < b then a else b
  }

  /** A critical section, by whichever thread. */
  datatype Step = DoWrite(buf: seq<Byte>, answer: Answer) | DoWritable | DoFlush(os: nat -> Answer) | DoClose
    | DoTimeOut

  ghost predicate Plausible(s: Step) {
    match s
    case DoWrite(_, answer) => answer.Failed? ==> answer.errno > 0
    case DoFlush(os) => forall i :: os(i).Failed? ==> os(i).errno > 0
    case _ => true
  }

  /** Any interleaving of writes, writable events, closes and timeouts: nothing is lost, doubled or
      reordered, and a connection that closes without an error has sent all exactly when `hio_close` was not
      called again while it waited. */
  method Drive(steps: seq<Step>) returns (io: Io)
    requires forall i :: 0 <= i < |steps| ==> Plausible(steps[i])
    ensures fresh(io) && fresh(io.queue) && fresh(io.queue.ptr) && io.Valid()
    ensures io.sent <= io.accepted
    ensures !io.closed ==>
            io.accepted == io.sent + Unsent(io.queue.Contents())
            && io.queueBytes == |io.accepted| - |io.sent|
    ensures !io.closed && io.queue.size > 0 ==> io.wantsWrite
    ensures io.closed && io.error == 0 ==> (io.sent == io.accepted <==> !io.repeated)
  {
    io := new Io();
    for i := 0 to |steps|
      invariant fresh(io) && fresh(io.queue) && fresh(io.queue.ptr) && io.Valid() && io.sent <= io.accepted
    {
      assert Plausible(steps[i]);
      io.Take(steps[i]);
    }
  }

  /** A write that the socket does not take yet, and two calls of `hio_close`: the byte is lost. */
  method SecondCloseDrops() returns (io: Io)
    ensures io.closed && io.error == 0 && io.repeated && io.accepted == [7] && io.sent == []
  {
    io := new Io();
    var n, shut := io.Write([7], Again);
    io.Close();
    io.Close();
  }

  /** Bytes accepted are bytes sent and then bytes in the queue, in order; the counter is right. */
  ghost predicate Consistent(q: seq<Pending>, accepted: seq<Byte>, sent: seq<Byte>, bytes: nat) {
    Sane(q) && accepted == sent + Unsent(q) && bytes == |Unsent(q)|
  }

  lemma SentOn(q: seq<Pending>, q': seq<Pending>, accepted: seq<Byte>, sent: seq<Byte>, bytes: nat, n: nat,
               piece: seq<Byte>)
    requires Consistent(q, accepted, sent, bytes) && Sane(q') && n <= |Unsent(q)|
    requires Unsent(q') == Unsent(q)[n..] && piece == Unsent(q)[..n]
    ensures n <= bytes && Consistent(q', accepted, sent + piece, bytes - n)
  {
    assert Unsent(q)[..n] + Unsent(q)[n..] == Unsent(q);
    assert sent + piece + Unsent(q') == sent + (piece + Unsent(q'));
  }
}
