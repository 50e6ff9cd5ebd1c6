/** `BufferQueue`: a bounded FIFO of packets. Packets leave through a free
    list and are reused for later writes; the lock is left out. */
module BufferQueue {
  import opened Ints
  import Buffer

  datatype Queue = Queue(capacity: nat, defaultSize: nat,
                         packets: seq<Buffer.Buffer<byte>>,
                         freeList: seq<Buffer.Buffer<byte>>)

  /** The queue never holds more packets than its capacity, and every
      buffer it owns is consistent. */
  ghost predicate Valid(q: Queue) {
    |q.packets| <= q.capacity &&
    (forall i :: 0 <= i < |q.packets| ==> Buffer.IsConsistent(q.packets[i])) &&
    (forall i :: 0 <= i < |q.freeList| ==> Buffer.IsConsistent(q.freeList[i]))
  }

  /** The bytes of the queued packets, oldest first. */
  function Contents(q: Queue): (c: seq<seq<byte>>)
    ensures |c| == |q.packets|
  {
    seq(|q.packets|, i requires 0 <= i < |q.packets| => q.packets[i].data)
  }

  function New(capacity: nat, defaultSize: nat): (q: Queue)
    ensures Valid(q) && Contents(q) == [] && q.capacity == capacity
  {
    Queue(capacity, defaultSize, [], [])
  }

  /** `size()`: the number of queued packets. */
  function Size(q: Queue): (n: nat)
    ensures n == |Contents(q)|
  {
    |q.packets|
  }

  /** `clear`: every queued packet moves to the free list. */
  function Clear(q: Queue): (r: Queue)
    requires Valid(q)
    ensures Valid(r) && Contents(r) == [] && r.capacity == q.capacity
    ensures |r.freeList| == |q.freeList| + |q.packets|
  {
    Queue(q.capacity, q.defaultSize, [], q.freeList + q.packets)
  }

  /** What `read_front` produces: whether a packet was read, the bytes
      copied out, the queue after, and whether the writable notification
      fired. */
  datatype ReadResult = ReadResult(ok: bool, bytes: seq<byte>, queue: Queue, notifyWritable: bool)

  /** `read_front`: fails on an empty queue; otherwise the oldest packet
      leaves the queue, its first min(bytes, size) bytes are copied out and
      the rest is dropped, and the packet joins the free list. The writable
      notification fires when the queue was full. */
  function ReadFront(q: Queue, bytes: nat): (r: ReadResult)
    requires Valid(q)
    ensures Valid(r.queue) && r.queue.capacity == q.capacity
    ensures !r.ok <==> Contents(q) == []
    ensures !r.ok ==> r.queue == q && r.bytes == [] && !r.notifyWritable
    ensures r.ok ==> Contents(r.queue) == Contents(q)[1..]
    ensures r.ok ==> r.bytes == Contents(q)[0][..if bytes < |Contents(q)[0]| then bytes else |Contents(q)[0]|]
    ensures r.notifyWritable <==> r.ok && |q.packets| == q.capacity
  {
    if |q.packets| == 0 then ReadResult(false, [], q, false)
    else
      var wasWritable := |q.packets| < q.capacity;
      var packet := q.packets[0];
      var n := if bytes < |packet.data| then bytes else |packet.data|;
      var rest := Queue(q.capacity, q.defaultSize, q.packets[1..], q.freeList + [packet]);
      assert Contents(rest) == Contents(q)[1..];
      ReadResult(true, packet.data[..n], rest, !wasWritable)
  }

  /** What `write_back` produces: whether the bytes were queued, the count
      reported written, the queue after, and whether the readable
      notification fired. */
  datatype WriteResult = WriteResult(ok: bool, written: nat, queue: Queue, notifyReadable: bool)

  /** `write_back`: fails, changing nothing, on a full queue; otherwise a
      packet is taken from the back of the free list (or newly allocated
      with the default capacity), set to a copy of the bytes and queued at
      the back. The readable notification fires when the queue was empty. */
  function WriteBack(q: Queue, data: seq<byte>): (r: WriteResult)
    requires Valid(q)
    ensures Valid(r.queue) && r.queue.capacity == q.capacity
    ensures !r.ok <==> |q.packets| == q.capacity
    ensures !r.ok ==> r.queue == q && r.written == 0 && !r.notifyReadable
    ensures r.ok ==> Contents(r.queue) == Contents(q) + [data] && r.written == |data|
    ensures r.notifyReadable <==> r.ok && |q.packets| == 0
  {
    if |q.packets| == q.capacity then WriteResult(false, 0, q, false)
    else
      var wasReadable := |q.packets| != 0;
      var packet := if |q.freeList| > 0 then q.freeList[|q.freeList| - 1]
                    else Buffer.WithCapacity(data, q.defaultSize);
      var freeList := if |q.freeList| > 0 then q.freeList[..|q.freeList| - 1] else q.freeList;
      var filled := Buffer.SetData(packet, data);
      var next := Queue(q.capacity, q.defaultSize, q.packets + [filled], freeList);
      assert Contents(next) == Contents(q) + [data];
      WriteResult(true, |data|, next, !wasReadable)
  }

  /** The queue is first in, first out: a packet written to an empty queue
      is the one read back, in full when the reader has room for it. */
  lemma WriteThenRead(q: Queue, data: seq<byte>, bytes: nat)
    requires Valid(q) && Contents(q) == [] && q.capacity > 0 && bytes >= |data|
    ensures var w := WriteBack(q, data);
            var r := ReadFront(w.queue, bytes);
            w.ok && r.ok && r.bytes == data && Contents(r.queue) == []
  {
  }

  /** Reading removes packets in the order they were written: after two
      writes to an empty queue, two reads return them oldest first. */
  lemma FifoOrder(q: Queue, a: seq<byte>, b: seq<byte>)
    requires Valid(q) && Contents(q) == [] && q.capacity >= 2
    ensures var w1 := WriteBack(q, a);
            var w2 := WriteBack(w1.queue, b);
            var r1 := ReadFront(w2.queue, |a|);
            var r2 := ReadFront(r1.queue, |b|);
            r1.bytes == a && r2.bytes == b && Contents(r2.queue) == []
  {
    var w1 := WriteBack(q, a);
    var w2 := WriteBack(w1.queue, b);
    assert Contents(w2.queue) == [a, b];
  }

  /** Reading whole packets until the queue is empty, the bytes of each
      read in turn. */
  function Drain(q: Queue): seq<seq<byte>>
    requires Valid(q)
    decreases |q.packets|
  {
    if |q.packets| == 0 then []
    else
      var r := ReadFront(q, |Contents(q)[0]|);
      [r.bytes] + Drain(r.queue)
  }

  /** Draining any valid queue returns its packets, oldest first. */
  lemma {:induction false} DrainIsContents(q: Queue)
    requires Valid(q)
    ensures Drain(q) == Contents(q)
    decreases |q.packets|
  {
    if |q.packets| > 0 {
      var r := ReadFront(q, |Contents(q)[0]|);
      DrainIsContents(r.queue);
      assert r.bytes == Contents(q)[0][..|Contents(q)[0]|] == Contents(q)[0];
      assert Contents(q) == [Contents(q)[0]] + Contents(q)[1..];
    }
  }

  /** First in, first out on any queue with room: after a write, reading
      everything returns the packets that were queued and then the new
      one. */
  lemma WriteThenDrain(q: Queue, data: seq<byte>)
    requires Valid(q) && |q.packets| < q.capacity
    ensures var w := WriteBack(q, data);
            w.ok && Drain(w.queue) == Contents(q) + [data]
  {
    DrainIsContents(WriteBack(q, data).queue);
  }
}
