/** The stream machine behind `stream_data`: chunks in from a download handler, chunks out to an upload handler. */
module Streams {
  import opened Bytes
  import opened Engine
  import opened HostCalls

  /** The reader's data and position; absent before the first read and after the end. */
  datatype Reader = Reader(data: seq<byte>, pos: nat)

  datatype Stream = Stream(reader: Option<Reader>, eof: bool, buffer: seq<byte>)

  const IDLE := Stream(None, false, [])

  /** What the download handler would do if asked: absent or failing (None), or hand over all its data. */
  type Source = Option<seq<byte>>

  datatype Sink = Absent | Fails | Accepts

  /** The outcome of one host call: the code the guest sees, the bytes moved, the handler's part, or a panic. */
  datatype Effect = Effect(
    st: Stream, code: int, chunk: seq<byte>, fetched: Option<seq<byte>>, flushed: Option<seq<byte>>, panicked: bool)

  function Download(st: Stream, size: nat, ptr: int, length: int, source: Source): Effect {
    if st.eof then Effect(st, 0, [], None, None, false)
    else if !InBounds(ptr, length, size) then Effect(st, -1, [], None, None, false)
    else if st.reader.None? && source.None? then Effect(st, -1, [], None, None, false)
    else
      var fetched := if st.reader.None? then source else None;
      var r := if st.reader.None? then Reader(source.value, 0) else st.reader.value;
      if r.pos >= |r.data| then Effect(st.(reader := None, eof := true), 0, [], fetched, None, false)
      else
        var n := if length <= |r.data| - r.pos then length else |r.data| - r.pos;
        Effect(st.(reader := Some(Reader(r.data, r.pos + n))), n, r.data[r.pos..r.pos + n], fetched, None, false)
  }

  function Upload(st: Stream, m: seq<byte>, ptr: int, length: int, sink: Sink): Effect {
    if !InBounds(ptr, length, |m|) then Effect(st, -1, [], None, None, false)
    else if length == 0 then
      if st.buffer == [] then Effect(st, 0, [], None, None, false)
      else if sink.Absent? then Effect(st, -1, [], None, None, false)
      else Effect(IDLE, if sink.Accepts? then 0 else -1, [], None, Some(st.buffer), false)
    else if Wraps(ptr, length) then Effect(st, 0, [], None, None, true)
    else Effect(st.(buffer := st.buffer + m[ptr..ptr + length]), length, m[ptr..ptr + length], None, None, false)
  }

  /** The session's stream fields and the two handlers that update them. */
  class StreamSession {
    var mem: array<byte>
    var downloadReader: Option<Reader>
    var downloadEOF: bool
    var uploadBuffer: seq<byte>

    ghost function State(): Stream
      reads this
    {
      Stream(downloadReader, downloadEOF, uploadBuffer)
    }

    constructor (mem: array<byte>)
      ensures this.mem == mem && State() == IDLE
    {
      this.mem := mem;
      downloadReader, downloadEOF, uploadBuffer := None, false, [];
    }

    method HandleDownload(ptr: int, length: int, source: Source) returns (code: int)
      modifies mem, this`downloadReader, this`downloadEOF
      ensures var e := Download(old(State()), mem.Length, ptr, length, source);
              && State() == e.st && code == e.code
              && mem[..] == if e.chunk == [] then old(mem[..])
                            else old(mem[..])[..ptr] + e.chunk + old(mem[..])[ptr + |e.chunk|..]
    {
      if downloadEOF {
        return 0;
      }
      if ptr < 0 || length < 0 || ptr + length > mem.Length {
        return -1;
      }
      var r: Reader;
      if downloadReader.None? {
        if source.None? {
          return -1;
        }
        r := Reader(source.value, 0);
      } else {
        r := downloadReader.value;
      }
      if r.pos >= |r.data| {
        downloadReader, downloadEOF := None, true;
        return 0;
      }
      var n := if length <= |r.data| - r.pos then length else |r.data| - r.pos;
      var chunk := r.data[r.pos..r.pos + n];
      if n > 0 {
        WriteBytes(mem, ptr, chunk);
      }
      downloadReader := Some(Reader(r.data, r.pos + n));
      code := n;
    }

    method HandleUpload(ptr: int, length: int, sink: Sink)
      returns (code: int, flushed: Option<seq<byte>>, panicked: bool)
      modifies this`downloadReader, this`downloadEOF, this`uploadBuffer
      ensures var e := Upload(old(State()), mem[..], ptr, length, sink);
              State() == e.st && code == e.code && flushed == e.flushed && panicked == e.panicked
    {
      flushed, panicked := None, false;
      if ptr < 0 || length < 0 || ptr + length > mem.Length {
        return -1, None, false;
      }
      if length == 0 {
        if |uploadBuffer| == 0 {
          return 0, None, false;
        }
        if sink.Absent? {
          return -1, None, false;
        }
        flushed := Some(uploadBuffer);
        uploadBuffer, downloadReader, downloadEOF := [], None, false;
        return if sink.Accepts? then 0 else -1, flushed, false;
      }
      if Wraps(ptr, length) {
        return 0, None, true;
      }
      uploadBuffer := uploadBuffer + mem[ptr..ptr + length];
      code := length;
    }
  }

  /** A guest that reads through its StreamReader until end of file gets the handler's data, whatever its buffer. */
  method ReadToEnd(s: StreamSession, ptr: int, length: int, data: seq<byte>) returns (got: seq<byte>, ok: bool)
    requires length > 0 && s.downloadReader.None? && !s.downloadEOF
    modifies s.mem, s`downloadReader, s`downloadEOF
    ensures ok <==> InBounds(ptr, length, s.mem.Length)
    ensures ok ==> got == data && s.downloadEOF
    ensures !ok ==> s.State() == old(s.State())
  {
    got := [];
    while true
      invariant got <= data && !s.downloadEOF && s.uploadBuffer == old(s.uploadBuffer)
      invariant s.downloadReader == if got == [] then None else Some(Reader(data, |got|))
      invariant got != [] ==> InBounds(ptr, length, s.mem.Length)
      decreases |data| - |got|
    {
      var n := s.HandleDownload(ptr, length, Some(data));
      if n < 0 {
        return [], false;
      }
      if n == 0 {
        return got, true;
      }
      assert s.mem[ptr..ptr + n] == data[|got|..|got| + n];
      got := got + s.mem[ptr..ptr + n];
    }
  }

  // ---------------------------------------------------------------- every sequence of calls

  datatype Call =
    | Read(size: nat, ptr: int, length: int, source: Source)
    | Write(m: seq<byte>, ptr: int, length: int, sink: Sink)

  function Do(st: Stream, call: Call): Effect {
    match call
    case Read(size, ptr, length, source) => Download(st, size, ptr, length, source)
    case Write(m, ptr, length, sink) => Upload(st, m, ptr, length, sink)
  }

  // ---------------------------------------------------------------- what the calls alone say

  /** What has gone through since the last flush that reached a handler. */
  datatype Epoch = Epoch(
    data: Option<seq<byte>>,  // what the download handler handed over, once it has
    received: seq<byte>,      // the chunks delivered, joined
    over: bool,               // a read has found nothing left
    sent: seq<byte>)          // the chunks written, joined

  const NOTHING := Epoch(None, [], false, [])

  /** The write hands what was sent to a handler. */
  predicate Flushes(ep: Epoch, call: Call) {
    call.Write? && InBounds(call.ptr, call.length, |call.m|) && call.length == 0 && ep.sent != [] && !call.sink.Absent?
  }

  /** The bytes of guest memory that the call uploads. */
  function Uploaded(call: Call): seq<byte> {
    if call.Write? && call.length > 0 && InBounds(call.ptr, call.length, |call.m|) && !Wraps(call.ptr, call.length)
    then call.m[call.ptr..call.ptr + call.length] else []
  }

  /** The data that the call would read from, if it can read at all. */
  function Available(ep: Epoch, call: Call): Option<seq<byte>> {
    if call.Write? || ep.over || !InBounds(call.ptr, call.length, call.size) then None
    else if ep.data.Some? then ep.data
    else call.source
  }

  /** As much of it as there is left and the buffer takes. */
  function Delivered(ep: Epoch, call: Call): seq<byte> {
    match Available(ep, call)
    case None => []
    case Some(data) =>
      var from := |ep.received|;
      if from >= |data| then []
      else if from + call.length <= |data| then data[from..from + call.length]
      else data[from..]
  }

  function After(ep: Epoch, call: Call): Epoch {
    if Flushes(ep, call) then NOTHING
    else
      Epoch(if Available(ep, call).Some? then Available(ep, call) else ep.data,
            ep.received + Delivered(ep, call),
            ep.over || (Available(ep, call).Some? && |ep.received| >= |Available(ep, call).value|),
            ep.sent + Uploaded(call))
  }

  function Passed(calls: seq<Call>): Epoch {
    if calls == [] then NOTHING else After(Passed(calls[..|calls| - 1]), calls[|calls| - 1])
  }

  /** The bytes received are a prefix of the data, and all of it once a read has found nothing left. */
  predicate Conserved(ep: Epoch) {
    && (ep.data.None? ==> ep.received == [] && !ep.over)
    && (ep.data.Some? ==> ep.received <= ep.data.value)
    && (ep.over ==> ep.data == Some(ep.received))
  }

  /** What a call delivers is what comes next in its data. */
  lemma DeliveredIsNext(ep: Epoch, call: Call)
    requires Conserved(ep) && Available(ep, call).Some?
    ensures var data, chunk := Available(ep, call).value, Delivered(ep, call);
            ep.received <= data && ep.received + chunk == data[..|ep.received| + |chunk|]
  {
    var data, chunk := Available(ep, call).value, Delivered(ep, call);
    var from := |ep.received|;
    assert ep.received == data[..from];
    assert chunk == data[from..from + |chunk|];
    assert data[..from] + data[from..from + |chunk|] == data[..from + |chunk|];
  }

  lemma AfterConserves(ep: Epoch, call: Call)
    requires Conserved(ep)
    ensures Conserved(After(ep, call))
  {
    if Available(ep, call).Some? {
      var data, next := Available(ep, call).value, After(ep, call).received;
      DeliveredIsNext(ep, call);
      assert next == data[..|next|];
      assert |ep.received| >= |data| ==> next == data;
    }
    assert ep.received + [] == ep.received;
  }

  // ---------------------------------------------------------------- and what the handlers do

  function StateAfter(calls: seq<Call>): Stream {
    if calls == [] then IDLE else Do(StateAfter(calls[..|calls| - 1]), calls[|calls| - 1]).st
  }

  predicate InStep(st: Stream, ep: Epoch) {
    && Conserved(ep) && st.buffer == ep.sent && st.eof == ep.over
    && st.reader == if ep.data.Some? && !ep.over then Some(Reader(ep.data.value, |ep.received|)) else None
  }

  /** What the guest and the handlers see of one call. */
  predicate Right(ep: Epoch, call: Call, e: Effect) {
    match call
    case Read(size, ptr, length, source) =>
      && e.chunk == Delivered(ep, call) && e.flushed.None? && !e.panicked
      && e.code == (if ep.over then 0 else if Available(ep, call).None? then -1 else |e.chunk|)
      && e.fetched == (if ep.data.None? then Available(ep, call) else None)
    case Write(m, ptr, length, sink) =>
      && e.fetched.None?
      && (e.panicked <==> InBounds(ptr, length, |m|) && length > 0 && Wraps(ptr, length))
      && e.flushed == (if Flushes(ep, call) then Some(ep.sent) else None)
      && (!e.panicked ==>
            e.code == if !InBounds(ptr, length, |m|) then -1
                      else if length > 0 then length
                      else if ep.sent == [] || sink.Accepts? then 0
                      else -1)
  }

  lemma OneCall(st: Stream, ep: Epoch, call: Call)
    requires InStep(st, ep)
    ensures InStep(Do(st, call).st, After(ep, call)) && Right(ep, call, Do(st, call))
  {
    AfterConserves(ep, call);
    hide Conserved, InBounds, Wraps;
    if call.Read? {
      OneRead(st, ep, call);
    }
  }

  lemma OneRead(st: Stream, ep: Epoch, call: Call)
    requires InStep(st, ep) && call.Read?
    ensures var e, ep' := Do(st, call), After(ep, call);
            && Right(ep, call, e)
            && e.st.buffer == ep'.sent && e.st.eof == ep'.over
            && e.st.reader == if ep'.data.Some? && !ep'.over then Some(Reader(ep'.data.value, |ep'.received|)) else None
  {
    hide Wraps;
    if Available(ep, call).Some? {
      var data, from := Available(ep, call).value, |ep.received|;
      DeliveredIsNext(ep, call);
      assert from <= |data| && data[from..] == data[from..from + (|data| - from)];
    }
    assert ep.sent + [] == ep.sent && ep.received + [] == ep.received;
  }

  lemma {:induction false} AlwaysInStep(calls: seq<Call>)
    ensures InStep(StateAfter(calls), Passed(calls))
  {
    if calls != [] {
      var before := calls[..|calls| - 1];
      AlwaysInStep(before);
      OneCall(StateAfter(before), Passed(before), calls[|calls| - 1]);
    }
  }

  /**
   Stream conservation, for every sequence of calls and every call after it. A read delivers the next
   bytes of the data that its handler once handed over, as many as are left and fit, and 0 after the
   end; what was delivered is a prefix of that data, and all of it at the end. A write takes the bytes
   of guest memory, and a flush hands over exactly those written since the flush before.
   */
  lemma StreamsConserve(calls: seq<Call>, call: Call)
    ensures Conserved(Passed(calls))
    ensures Right(Passed(calls), call, Do(StateAfter(calls), call))
  {
    AlwaysInStep(calls);
    OneCall(StateAfter(calls), Passed(calls), call);
  }

  /** After the end nothing is delivered, and the handler is not asked again, until a flush. */
  lemma NothingAfterTheEnd(calls: seq<Call>, call: Call)
    requires Passed(calls).over && call.Read?
    ensures var e := Do(StateAfter(calls), call);
            e.code == 0 && e.chunk == [] && e.fetched.None? && Passed(calls + [call]) == Passed(calls)
  {
    StreamsConserve(calls, call);
    assert (calls + [call])[..|calls|] == calls;
  }
}
