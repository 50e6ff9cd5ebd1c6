/** `StreamInterface` and `StreamAdapterInterface`: the stream states,
    results and events shared by every stream, the `write_all` loop, and an
    adapter that forwards to a wrapped stream. A concrete stream is seen only
    through what its calls return. */
module Stream {
  import opened Ints
  import opened Wrappers

  /** `StreamState`. */
  datatype StreamState = SsClosed | SsOpening | SsOpen

  /** `StreamResult`. */
  datatype StreamResult = SrError | SrSuccess | SrBlock | SrEos

  /** A set of `StreamEvent` flags (SE_OPEN = 1, SE_READ = 2, SE_WRITE = 4,
      SE_CLOSE = 8). */
  datatype Events = Events(open: bool, read: bool, write: bool, close: bool)

  const NO_EVENTS := Events(false, false, false, false)

  predicate AnyEvent(e: Events) {
    e.open || e.read || e.write || e.close
  }

  /** The value of an event set as the source's bit mask. */
  function EventMask(e: Events): (m: nat)
    ensures m < 16 && (m == 0 <==> !AnyEvent(e))
  {
    (if e.open then 1 else 0) + (if e.read then 2 else 0) +
    (if e.write then 4 else 0) + (if e.close then 8 else 0)
  }

  /** What one `write` call returns: the result, the number of bytes
      accepted (meaningful on SR_SUCCESS) and the error (set only on
      SR_ERROR). */
  datatype WriteReply = WriteReply(result: StreamResult, count: nat, error: int)

  /** What one `read` call returns: the result, the bytes read and the
      error. */
  datatype ReadReply = ReadReply(result: StreamResult, bytes: seq<byte>, error: int)

  /** A stream seen through its calls: its state, and what its n-th read
      (given the buffer length) or n-th write (given the bytes offered)
      returns. */
  datatype Interface = Interface(state: StreamState,
                                 read: (nat, nat) -> ReadReply,
                                 write: (nat, seq<byte>) -> WriteReply)

  /** The contract of `write` that `write_all` relies on to finish: a
      successful write of a non-empty buffer accepts at least one and at
      most all of the offered bytes. (A success that accepts nothing makes
      `write_all` loop forever.) */
  ghost predicate MakesProgress(s: Interface) {
    forall call: nat, data: seq<byte> ::
      |data| > 0 && s.write(call, data).result == SrSuccess ==>
        0 < s.write(call, data).count <= |data|
  }

  /** The outcome of `write_all`: the result, the total written, the error
      reported (when the result is SR_ERROR) and the number of `write`
      calls made. */
  datatype WriteAllResult = WriteAllResult(result: StreamResult, written: nat, error: Option<int>, calls: nat)

  /** `write_all` from the point where `call` writes have been made and
      `total` bytes accepted: keep offering the rest until it is all
      accepted or a write does not succeed. */
  function WriteFrom(s: Interface, data: seq<byte>, call: nat, total: nat): (r: WriteAllResult)
    requires MakesProgress(s) && total <= |data|
    ensures total <= r.written <= |data| && call <= r.calls
    ensures r.result == SrSuccess <==> r.written == |data|
    ensures r.error.Some? <==> r.result == SrError
    ensures total == |data| ==> r == WriteAllResult(SrSuccess, total, None, call)
    decreases |data| - total
  {
    if total == |data| then WriteAllResult(SrSuccess, total, None, call)
    else
      var reply := s.write(call, data[total..]);
      if reply.result != SrSuccess then
        WriteAllResult(reply.result, total, if reply.result == SrError then Some(reply.error) else None, call + 1)
      else WriteFrom(s, data, call + 1, total + reply.count)
  }

  /** `write_all`: the loop of the source, which computes `WriteFrom` from
      the start. An empty buffer makes no call and succeeds. */
  method WriteAll(s: Interface, data: seq<byte>) returns (r: WriteAllResult)
    requires MakesProgress(s)
    ensures r == WriteFrom(s, data, 0, 0)
    ensures r.written <= |data|
    ensures r.result == SrSuccess <==> r.written == |data|
    ensures |data| == 0 ==> r == WriteAllResult(SrSuccess, 0, None, 0)
  {
    var result := SrSuccess;
    var error: Option<int> := None;
    var total := 0;
    var call := 0;
    while total < |data|
      invariant total <= |data|
      invariant WriteFrom(s, data, call, total) == WriteFrom(s, data, 0, 0)
      invariant total == 0 ==> call == 0
      decreases |data| - total
    {
      var reply := s.write(call, data[total..]);
      call := call + 1;
      if reply.result != SrSuccess {
        result := reply.result;
        if reply.result == SrError {
          error := Some(reply.error);
        }
        return WriteAllResult(result, total, error, call);
      }
      total := total + reply.count;
    }
    r := WriteAllResult(result, total, error, call);
  }

  /** `write_all` stops at the first write that does not succeed and
      returns that write's result, with the bytes accepted before it. */
  lemma StopsAtFirstFailure(s: Interface, data: seq<byte>, call: nat, total: nat)
    requires MakesProgress(s) && total < |data|
    requires s.write(call, data[total..]).result != SrSuccess
    ensures var r := WriteFrom(s, data, call, total);
            r.result == s.write(call, data[total..]).result &&
            r.written == total && r.calls == call + 1
  {
  }

  /** A stream that accepts everything it is offered is written in one
      call. */
  lemma AcceptingStreamOneCall(s: Interface, data: seq<byte>)
    requires MakesProgress(s) && |data| > 0
    requires s.write(0, data) == WriteReply(SrSuccess, |data|, 0)
    ensures WriteFrom(s, data, 0, 0) == WriteAllResult(SrSuccess, |data|, None, 1)
  {
    assert data[0..] == data;
  }

  /** A stream that takes one byte per call is written in as many calls as
      there are bytes. */
  lemma {:induction false} ByteAtATime(s: Interface, data: seq<byte>, call: nat, total: nat)
    requires MakesProgress(s) && total <= |data|
    requires forall c: nat, d: seq<byte> :: |d| > 0 ==> s.write(c, d) == WriteReply(SrSuccess, 1, 0)
    ensures WriteFrom(s, data, call, total) == WriteAllResult(SrSuccess, |data|, None, call + |data| - total)
    decreases |data| - total
  {
    if total < |data| {
      assert s.write(call, data[total..]) == WriteReply(SrSuccess, 1, 0);
      ByteAtATime(s, data, call + 1, total + 1);
    }
  }

  // ---------------------------------------------------------------------
  // StreamAdapterInterface

  /** Who raised an event: the wrapped stream or the adapter. */
  datatype Source = FromStream | FromAdapter

  datatype EventSignal = EventSignal(source: Source, events: Events, err: int)

  /** The adapter holds the wrapped stream (ownership is left out). */
  datatype StreamAdapter = StreamAdapter(wrapped: Interface)

  /** `on_event`: an event of the wrapped stream is raised again, unchanged,
      with the adapter as its source. */
  function AdapterOnEvent(received: EventSignal): (r: EventSignal)
    requires received.source == FromStream
    ensures r.source == FromAdapter
    ensures r.events == received.events && r.err == received.err
  {
    EventSignal(FromAdapter, received.events, received.err)
  }

  /** The adapter as a stream: `get_state`, `read` and `write` are answered
      by the wrapped stream. */
  function AsInterface(a: StreamAdapter): (s: Interface)
    ensures s.state == a.wrapped.state
    ensures forall call: nat, len: nat :: s.read(call, len) == a.wrapped.read(call, len)
    ensures forall call: nat, d: seq<byte> :: s.write(call, d) == a.wrapped.write(call, d)
  {
    Interface(a.wrapped.state, (call: nat, len: nat) => a.wrapped.read(call, len),
              (call: nat, d: seq<byte>) => a.wrapped.write(call, d))
  }

  /** `write_all` on the adapter has the same outcome as on the wrapped
      stream. */
  lemma {:induction false} WriteAllThroughAdapter(a: StreamAdapter, data: seq<byte>, call: nat, total: nat)
    requires MakesProgress(a.wrapped) && total <= |data|
    ensures MakesProgress(AsInterface(a))
    ensures WriteFrom(AsInterface(a), data, call, total) == WriteFrom(a.wrapped, data, call, total)
    decreases |data| - total
  {
    var s := AsInterface(a);
    if total < |data| {
      var reply := a.wrapped.write(call, data[total..]);
      assert s.write(call, data[total..]) == reply;
      if reply.result == SrSuccess {
        WriteAllThroughAdapter(a, data, call + 1, total + reply.count);
      }
    }
  }
}
