/** HTTP transfers: processRequest and _asyncProcessRequest of http_base_request.tpp. The two run through the same
    phases; `async` selects where they differ. */
module HttpTransfers {
  import opened Text
  import opened Numbers
  import opened Ipv4Address
  import opened Sockets
  import opened RequestBases
  import opened OutputFiles
  import opened ChunkedCoding
  import opened HttpResponses
  import Headers
  import RequestComposer

  class HttpTransfer {
    const base: RequestBase
    const request: RequestComposer.HttpRequest
    const network: Network
    const ips: seq<Ipv4>

    constructor (request: RequestComposer.HttpRequest, network: Network, ips: seq<Ipv4>)
      ensures this.base == request.base && this.request == request && this.network == network && this.ips == ips
    {
      this.base, this.request, this.network, this.ips := request.base, request, network, ips;
    }

    /** Url::hostIP: the first address, or the zero one. */
    function FirstHost(): Ipv4 {
      if ips == [] then [0, 0, 0, 0] else ips[0]
    }

    /** The connect loop with its failover to the next address. The index is an int8_t. The error of an address
        that failed stays recorded. */
    method Connect(async: bool) returns (outcome: Outcome, socket: TcpSocket)
      requires base.Valid() && |ips| <= 127
      modifies base`m_error, base`m_status, base`m_paused, base`m_canceled, base`late, base`lateBytes
      modifies base`m_output, base`m_output_file, base`events
      modifies base`doneSet, base`doneWithError, base`clock
      ensures base.Valid() && fresh(socket) && outcome != Aborted && socket.network == network
      ensures outcome == Finished ==> socket.stream == network.hosts(socket.peer) && (ips != [] ==> socket.peer in ips)
      ensures outcome == Finished && socket.peer != FirstHost() ==> base.m_error.Some?
      ensures outcome == Failed || old(base.m_error).Some? ==> base.m_error.Some?
      ensures outcome == Stopped ==> base.Flagged()
      ensures base.doneSet == old(base.doneSet) && base.doneWithError == old(base.doneWithError)
    {
      hide RequestBase.TimeLeft, RequestBase.Flagged, RequestBase.Valid;
      socket := new TcpSocket(network, FirstHost());
      var start;
      outcome, start := base.BeginTransfer(socket);
      if outcome == Failed {
        return;
      }
      var ipIndex := 1;
      while !socket.connected
        invariant base.Valid() && start <= base.clock && fresh(socket)
        invariant 1 <= ipIndex <= 127 && (ipIndex <= |ips| || ipIndex == 1)
        invariant OnTheWay(socket, ipIndex)
        invariant old(base.m_error).Some? || ipIndex > 1 ==> base.m_error.Some?
        invariant base.doneSet == old(base.doneSet) && base.doneWithError == old(base.doneWithError)
        decreases |ips| - ipIndex + 1, base.TimeLeft(start)
      {
        outcome, socket, ipIndex := Attempt(socket, ipIndex, start, async);
        if outcome != Finished {
          return;
        }
      }
      outcome := Finished;
    }

    /** One round of it: an attempt, and after a failed one the next address, when there is one. */
    method Attempt(socket: TcpSocket, ipIndex: int, start: int, async: bool)
      returns (outcome: Outcome, next: TcpSocket, nextIndex: int)
      requires base.Valid() && start <= base.clock && !socket.connected
      requires 1 <= ipIndex && |ips| <= 127 && OnTheWay(socket, ipIndex)
      modifies socket`connected, socket`peer, socket`error, socket`stream, socket`destination
      modifies base`m_error, base`m_status, base`m_paused, base`m_canceled, base`late, base`lateBytes
      modifies base`m_output, base`m_output_file, base`events
      modifies base`doneSet, base`doneWithError, base`clock
      ensures base.Valid() && start <= base.clock && outcome != Aborted
      ensures OnTheWay(next, nextIndex) && (next == socket || fresh(next))
      ensures nextIndex == ipIndex || ipIndex < nextIndex == ipIndex + 1 <= |ips|
      ensures outcome == Finished && nextIndex == ipIndex ==> base.TimeLeft(start) < old(base.TimeLeft(start))
      ensures outcome == Failed || nextIndex > ipIndex || old(base.m_error).Some? ==> base.m_error.Some?
      ensures outcome == Failed ==> ipIndex >= |ips|
      ensures outcome == Stopped ==> base.Flagged()
      ensures base.doneSet == old(base.doneSet) && base.doneWithError == old(base.doneWithError)
    {
      hide RequestBase.TimeLeft, RequestBase.Flagged, RequestBase.Valid;
      next, nextIndex := socket, ipIndex;
      outcome := base.TryHost(socket, start);
      if outcome == Failed && ipIndex < |ips| {
        next := NextHost(socket, ipIndex, async);
        nextIndex, outcome := ipIndex + 1, Finished;
      }
      if outcome == Finished && next.error != NoError {
        next.ResetError();
      }
    }

    /** Where the socket is led, to the addresses one after the other; and where it came when it is connected: to
        one of those tried so far. */
    ghost predicate OnTheWay(socket: TcpSocket, ipIndex: int)
      reads socket
    {
      && socket.network == network && 1 <= ipIndex && (ipIndex <= |ips| || ipIndex == 1)
      && socket.destination == (if ips == [] then FirstHost() else ips[ipIndex - 1])
      && (socket.connected ==> socket.stream == network.hosts(socket.peer))
      && (socket.connected ==> if ips == [] then socket.peer == FirstHost() else socket.peer in ips[..ipIndex])
    }

    /** The socket for the next address: a new one, or in the coroutine the same one. */
    method NextHost(socket: TcpSocket, ipIndex: int, async: bool) returns (next: TcpSocket)
      requires 1 <= ipIndex < |ips| && OnTheWay(socket, ipIndex)
      modifies socket`destination
      ensures OnTheWay(next, ipIndex + 1) && (next == socket || fresh(next))
      ensures if async then next == socket else !next.connected
    {
      next := socket;
      if async {
        next.SetDestinationHost(ips[ipIndex]);
      } else {
        next := new TcpSocket(network, ips[ipIndex]);
      }
    }

    /** The loop that reads the head: its parts add up to the stream up to the first blank line. */
    method ReadHead(socket: TcpSocket) returns (outcome: Outcome, head: string, start: int)
      requires base.Valid()
      modifies socket`stream, socket`error
      modifies base`m_error, base`m_status, base`m_paused, base`m_canceled, base`late, base`lateBytes
      modifies base`m_output, base`m_output_file, base`events
      modifies base`doneSet, base`doneWithError, base`clock
      ensures base.Valid() && outcome != Aborted
      ensures outcome == Finished ==>
        old(socket.stream) == head + socket.stream && HeadComplete(old(socket.stream), head)
      ensures if outcome == Failed then base.m_error.Some? else base.m_error == old(base.m_error)
      ensures outcome == Stopped ==> base.Flagged()
      ensures start <= base.clock && old(base.clock) <= base.clock
      ensures base.doneSet == old(base.doneSet) && base.doneWithError == old(base.doneWithError)
    {
      hide RequestBase.TimeLeft, RequestBase.Flagged, RequestBase.Valid, Taken, HeadSoFar, HeadComplete;
      NoHeadYet(socket.stream);
      base.SetStatus(Reading);
      head := "";
      ghost var all := socket.stream;
      start := base.Now();
      while true
        invariant base.Valid() && start <= base.clock && old(base.clock) <= base.clock
        invariant HeadSoFar(all, head, socket.stream)
        invariant base.m_error == old(base.m_error)
        invariant base.doneSet == old(base.doneSet) && base.doneWithError == old(base.doneWithError)
        decreases base.TimeLeft(start)
      {
        ghost var before := socket.stream;
        var data, complete;
        outcome, data, complete := ReadHeadPart(socket, start);
        if outcome != Finished {
          return;
        }
        HeadGrows(all, head, before, data, socket.stream, complete);
        head := head + data;
        if complete {
          return;
        }
      }
    }

    /** One round of it. */
    method ReadHeadPart(socket: TcpSocket, start: int) returns (outcome: Outcome, data: string, complete: bool)
      requires base.Valid() && start <= base.clock
      modifies socket`stream, socket`error
      modifies base`m_error, base`m_status, base`m_paused, base`m_canceled, base`late, base`lateBytes
      modifies base`m_output, base`m_output_file, base`events
      modifies base`doneSet, base`doneWithError, base`clock
      ensures base.Valid() && outcome != Aborted && old(base.clock) <= base.clock
      ensures outcome == Finished ==>
        Taken(old(socket.stream), data, socket.stream, complete) && base.TimeLeft(start) < old(base.TimeLeft(start))
      ensures if outcome == Failed then base.m_error.Some? else base.m_error == old(base.m_error)
      ensures outcome == Stopped ==> base.Flagged()
      ensures base.doneSet == old(base.doneSet) && base.doneWithError == old(base.doneWithError)
    {
      hide RequestBase.TimeLeft, RequestBase.Flagged, RequestBase.Valid, FirstAt;
      data, complete := "", false;
      var stop := base.StopRequested();
      if stop {
        outcome := Stopped;
        return;
      }
      data := socket.ReadUntil(BLANK);
      var ok := base.CheckSocketOperationErrorAndTimeOut(socket, start);
      if !ok {
        outcome := Failed;
        return;
      }
      complete := socket.error == NoError || socket.error == ReadDone;
      if !complete {
        socket.ResetError();
      }
      outcome := Finished;
    }

    /** The first half of a round of the chunk loop: the size line. When it has to be tried again, what was
        read of it is dropped. */
    method ReadSize(socket: TcpSocket, start: int)
      returns (outcome: Outcome, size: Option<int>, ghost dropped: string)
      requires base.Valid() && start <= base.clock
      modifies socket`stream, socket`error
      modifies base`m_error, base`m_status, base`m_paused, base`m_canceled, base`late, base`lateBytes
      modifies base`m_output, base`m_output_file, base`events
      modifies base`doneSet, base`doneWithError, base`clock
      ensures base.Valid() && start <= base.clock
      ensures |socket.stream| <= |old(socket.stream)|
      ensures outcome == Finished && size.Some? ==> |socket.stream| < |old(socket.stream)|
      ensures outcome == Finished && size.None? ==> base.TimeLeft(start) < old(base.TimeLeft(start))
      ensures outcome == Finished && size.None? ==> old(socket.stream) == dropped + socket.stream
      ensures outcome == Finished && size.None? && socket.network.calm ==> Skippable(dropped, socket.stream)
      ensures forall i: nat :: FirstAt(old(socket.stream), CRLF, i) ==>
        (outcome == Finished && size.Some? ==>
          SizeRead(old(socket.stream)[..i + 2]) == Ok(size.value) && socket.stream == old(socket.stream)[i + 2..])
        && (outcome == Aborted ==> SizeRead(old(socket.stream)[..i + 2]).Thrown?)
      ensures (if outcome == Failed then base.m_error.Some? else base.m_error == old(base.m_error))
      ensures outcome == Stopped ==> base.Flagged()
      ensures base.doneSet == old(base.doneSet) && base.doneWithError == old(base.doneWithError)
    {
      hide Content, WrittenBytes;
      size, dropped := None, "";
      var stop := base.StopRequested();
      if stop {
        outcome := Stopped;
        return;
      }
      var chunkSize := socket.ReadUntil(CRLF);
      assert old(socket.stream)[..|chunkSize|] == chunkSize && old(socket.stream)[|chunkSize|..] == socket.stream;
      var ok := base.CheckSocketOperationErrorAndTimeOut(socket, start);
      if !ok {
        outcome := Failed;
        return;
      }
      if socket.error != NoError && socket.error != ReadDone {
        socket.ResetError();
        dropped := chunkSize;
        outcome := Finished;
        return;
      }
      var read := SizeRead(chunkSize);
      if read.Thrown? {
        outcome := Aborted;
        return;
      }
      SizeNeedsText(chunkSize);
      size := Some(read.value);
      outcome := Finished;
    }

    /** The read of the two bytes behind a chunk, which may take fewer. */
    method SkipLineEnd(socket: TcpSocket, start: int) returns (outcome: Outcome, ghost skipped: nat)
      requires base.Valid() && start <= base.clock
      modifies socket`stream, socket`error
      modifies base`m_error, base`m_status, base`doneSet, base`doneWithError, base`clock
      modifies base`m_output, base`m_output_file, base`events
      ensures base.Valid() && start <= base.clock && (outcome == Finished || outcome == Failed)
      ensures skipped <= 2 && skipped <= |old(socket.stream)| && socket.stream == old(socket.stream)[skipped..]
      ensures socket.network.calm && old(socket.stream) != "" ==> skipped > 0
      ensures (if outcome == Failed then base.m_error.Some? else base.m_error == old(base.m_error))
      ensures base.doneSet == old(base.doneSet) && base.doneWithError == old(base.doneWithError)
    {
      hide Content, WrittenBytes;
      var redundantData := socket.Read(2, true);
      skipped := |redundantData|;
      var ok := base.CheckSocketOperationErrorAndTimeOut(socket, start);
      if !ok {
        outcome := Failed;
        return;
      }
      if socket.error != NoError {
        socket.ResetError();
      }
      outcome := Finished;
    }

    /** The second half: the data of a chunk and the two bytes behind it. */
    method ReadChunk(socket: TcpSocket, size: int, ghost left: seq<Chunk>, ghost last: Chunk, ghost tail: string,
                     ghost total: string)
      returns (outcome: Outcome, start: int, ghost skipped: nat)
      requires base.Valid() && base.Collects()
      modifies socket`stream, socket`error
      modifies base`m_response, base`delivered, base`m_bytes_read
      modifies base`m_error, base`m_status, base`m_paused, base`m_canceled, base`late, base`lateBytes
      modifies base`m_output, base`m_output_file, base`events
      modifies base`doneSet, base`doneWithError, base`clock
      ensures base.Valid() && start <= base.clock && SameHead(base.m_response, old(base.m_response))
      ensures base.Collects()
      ensures base.m_bytes_read - |base.delivered| == old(base.m_bytes_read) - |old(base.delivered)|
      ensures |socket.stream| <= |old(socket.stream)| && outcome != Aborted
      ensures AtData(old(socket.stream), old(base.delivered), size, left, last, tail, total) ==>
        base.delivered <= total
        && (socket.network.calm && outcome == Finished ==>
              AtSize(socket.stream, base.delivered, Behind(left, last, skipped), LastBehind(left, last, skipped), tail,
                total))
      ensures (if outcome == Failed then base.m_error.Some? else base.m_error == old(base.m_error))
      ensures outcome == Stopped ==> base.Flagged()
      ensures base.doneSet == old(base.doneSet) && base.doneWithError == old(base.doneWithError)
    {
      hide Content, WrittenBytes, AtData, AtSize, Behind, LastBehind;
      skipped := 0;
      ghost var passed, delivered, stream := 0, base.delivered, socket.stream;
      outcome, start, passed := base.ReadCounted(socket, size, UINT16);
      if AtData(stream, delivered, size, left, last, tail, total) {
        DataDelivered(stream, delivered, size, left, last, tail, total, passed);
      }
      if outcome != Finished {
        return;
      }
      outcome, skipped := SkipLineEnd(socket, start);
      if AtData(stream, delivered, size, left, last, tail, total) && socket.network.calm {
        LineEndSkipped(stream, delivered, size, left, last, tail, total, skipped);
      }
    }

    /** The chunk loop. For a chunked body on the wire of a calm network exactly the data of the chunks is
        delivered, and nothing behind the last size line is read. */
    method ReadChunks(socket: TcpSocket, headStart: int,
                      ghost cs: seq<Chunk>, ghost last: Chunk, ghost tail: string)
      returns (outcome: Outcome)
      requires base.Valid() && headStart <= base.clock && base.Collects()
      modifies socket`stream, socket`error
      modifies base`m_response, base`delivered, base`m_bytes_read
      modifies base`m_error, base`m_status, base`m_paused, base`m_canceled, base`late, base`lateBytes
      modifies base`m_output, base`m_output_file, base`events
      modifies base`doneSet, base`doneWithError, base`clock
      ensures base.Valid() && SameHead(base.m_response, old(base.m_response)) && base.Collects()
      ensures base.m_bytes_read - |base.delivered| == old(base.m_bytes_read) - |old(base.delivered)|
      ensures socket.network.calm && OnWire(old(socket.stream), cs, last, tail) ==>
        outcome != Aborted && base.delivered <= old(base.delivered) + Payload(cs)
        && (outcome == Finished ==> base.delivered == old(base.delivered) + Payload(cs) && socket.stream == tail)
      ensures (if outcome == Failed then base.m_error.Some? else base.m_error == old(base.m_error))
      ensures outcome == Stopped ==> base.Flagged()
      ensures base.doneSet == old(base.doneSet) && base.doneWithError == old(base.doneWithError)
    {
      var start := headStart;
      hide AtSize, AtData, OnWire, Payload, SizeRead, Contains, FirstAt, Skippable, Behind, LastBehind;
      hide Shortened, LastShortened, First;
      hide RequestBase.Flagged, RequestBase.Valid, RequestBase.Collects, RequestBase.TimeLeft;
      ghost var good := socket.network.calm && OnWire(socket.stream, cs, last, tail);
      ghost var left, final, total := cs, last, base.delivered + Payload(cs);
      if good {
        ChunksAhead(socket.stream, base.delivered, cs, last, tail);
      }
      while true
        invariant base.Valid() && start <= base.clock && SameHead(base.m_response, old(base.m_response))
        invariant base.Collects()
        invariant base.m_bytes_read - |base.delivered| == old(base.m_bytes_read) - |old(base.delivered)|
        invariant good ==> AtSize(socket.stream, base.delivered, left, final, tail, total)
        invariant base.m_error == old(base.m_error)
        invariant base.doneSet == old(base.doneSet) && base.doneWithError == old(base.doneWithError)
        decreases |socket.stream|, base.TimeLeft(start)
      {
        ghost var stream := socket.stream;
        if good {
          NextSize(stream, base.delivered, left, final, tail, total);
        }
        var size;
        ghost var dropped;
        outcome, size, dropped := ReadSize(socket, start);
        if outcome != Finished {
          return;
        }
        if size.None? {
          if good {
            SizeShortened(stream, base.delivered, left, final, tail, total, dropped, socket.stream);
          }
          left, final := Shortened(left, final, |dropped|), LastShortened(left, final, |dropped|);
          continue;
        }
        if size.value == 0 {
          return;
        }
        ghost var skipped;
        outcome, start, skipped := ReadChunk(socket, size.value, left, final, tail, total);
        if outcome != Finished {
          return;
        }
        left, final := Behind(left, final, skipped), LastBehind(left, final, skipped);
      }
    }

    /** A body framed by Content-Length. */
    method ReadByLength(socket: TcpSocket, text: string) returns (outcome: Outcome)
      requires base.Valid() && base.m_response.HttpResponse? && base.m_error.None? && base.Collects()
      modifies socket`stream, socket`error
      modifies base`m_response, base`delivered, base`m_bytes_read, base`m_bytes_to_read
      modifies base`m_error, base`m_status, base`m_paused, base`m_canceled, base`late, base`lateBytes
      modifies base`m_output, base`m_output_file, base`events
      modifies base`doneSet, base`doneWithError, base`clock
      ensures base.Valid() && SameHead(base.m_response, old(base.m_response)) && base.Collects()
      ensures base.m_bytes_read - |base.delivered| == old(base.m_bytes_read) - |old(base.delivered)|
      ensures outcome == Finished ==> LengthBodyRead(text, old(socket.stream), old(base.delivered), base.delivered)
      ensures if outcome == Failed then base.m_error.Some? else base.m_error.None?
      ensures outcome == Stopped ==> base.Flagged()
      ensures outcome == Aborted <==> Stoll(text, 10).Thrown?
      ensures base.doneWithError == old(base.doneWithError)
    {
      hide RequestBase.Valid, RequestBase.Flagged, RequestBase.TimeLeft;
      hide Stoll;
      var length := Stoll(text, 10);
      if length.Thrown? {
        return Aborted;
      }
      base.Expect(length.value);
      outcome := Finished;
      if base.m_bytes_to_read != 0 {
        socket.ResetError();
        base.SetStatus(Reading);
        ghost var passed;
        var start;
        outcome, start, passed := base.ReadCounted(socket, base.m_bytes_to_read, UINT16);
      } else {
        base.SetStatus(Done);
        assert base.delivered == old(base.delivered) + old(socket.stream)[..0];
      }
    }

    /** What follows the head. Done is set here only, and never over an error. Without a length and an encoding
        there is nothing to read by. */
    method ReadBody(socket: TcpSocket, start: int, async: bool,
                    ghost cs: seq<Chunk>, ghost last: Chunk, ghost tail: string)
      returns (outcome: Outcome)
      requires base.Valid() && start <= base.clock && base.m_error.None?
      requires base.m_response.HttpResponse? && base.Collects() && base.delivered == ""
      modifies socket`stream, socket`error
      modifies base`m_response, base`delivered, base`m_bytes_read, base`m_bytes_to_read
      modifies base`m_error, base`m_status, base`m_paused, base`m_canceled, base`late, base`lateBytes
      modifies base`m_output, base`m_output_file, base`events
      modifies base`doneSet, base`doneWithError, base`clock
      ensures base.Valid() && SameHead(base.m_response, old(base.m_response)) && base.Collects()
      ensures base.m_bytes_read == old(base.m_bytes_read) + |base.delivered|
      ensures outcome == Finished ==> base.doneSet && base.m_error.None? && base.m_status == Done
      ensures outcome == Finished ==>
        BodyRead(old(base.m_response), old(socket.stream), base.delivered, async, socket.network.calm, cs, last, tail)
      ensures outcome == Failed ==> base.m_error.Some?
      ensures var r := old(base.m_response);
        ContentLength(r).None? && TransferEncoding(r).None? && !(async && r.status != 200) ==>
          outcome == Failed && base.m_error == Some(ResponseSizeError)
      ensures outcome == Stopped ==> base.Flagged()
      ensures base.doneWithError == old(base.doneWithError)
    {
      hide RequestBase.Valid, RequestBase.Flagged;
      var response := base.m_response;
      if async && response.status != OK_STATUS {
        base.SetStatus(Done);
        return Finished;
      }
      var contentLength, transferEncoding := ContentLength(response), TransferEncoding(response);
      if contentLength.Some? {
        outcome := ReadByLength(socket, contentLength.value);
      } else if transferEncoding.Some? {
        if !Contains(transferEncoding.value, "chunked") {
          base.SetStatus(Done);
          return Finished;
        }
        outcome := ReadChunks(socket, start, cs, last, tail);
      } else {
        base.SetError(ResponseSizeError);
        outcome := Failed;
      }
      if outcome == Finished {
        base.SetStatus(Done);
      }
    }

    /** Composing and writing the request, and reading the head of the answer. */
    method Exchange(socket: TcpSocket, async: bool)
      returns (outcome: Outcome, head: string, start: int, bytesWritten: nat)
      requires base.Valid() && request.Valid()
      modifies socket`stream, socket.network`received, socket`error
      modifies base`m_request_data, base`m_max_frame_size
      modifies base`m_error, base`m_status, base`m_paused, base`m_canceled, base`late, base`lateBytes
      modifies base`m_output, base`m_output_file, base`events
      modifies base`doneSet, base`doneWithError, base`clock
      modifies request`m_request_data, request`m_body, request`m_request_composed, request.m_headers
      ensures base.Valid() && outcome != Aborted && request.m_request_data == old(request.Data())
      ensures base.m_max_frame_size == if async then 255 else old(base.m_max_frame_size)
      ensures bytesWritten <= |request.m_request_data|
      ensures socket.network.received ==
        WithMore(old(socket.network.received), socket.peer, request.m_request_data[..bytesWritten])
      ensures outcome == Finished ==> bytesWritten == |request.m_request_data|
      ensures outcome == Finished ==>
        old(socket.stream) == head + socket.stream && HeadComplete(old(socket.stream), head) && start <= base.clock
      ensures if outcome == Failed then base.m_error.Some? else base.m_error == old(base.m_error)
      ensures outcome == Stopped ==> base.Flagged()
      ensures base.doneWithError == old(base.doneWithError)
    {
      head, start := "", 0;
      hide WithMore, RequestComposer.HttpRequest.Data;
      request.PrepareRequest();
      base.m_request_data := request.m_request_data;
      if async {
        base.UseSmallFrames();
      }
      outcome, bytesWritten := base.WriteRequest(socket);
      if outcome != Finished {
        return;
      }
      outcome, head, start := ReadHead(socket);
    }

    /** processRequest and _asyncProcessRequest. */
    method ProcessRequest(async: bool, ghost cs: seq<Chunk>, ghost last: Chunk, ghost tail: string)
      returns (outcome: Outcome, ghost run: Run)
      requires base.Valid() && request.Valid() && |ips| <= 127
      modifies base, request, request.m_headers, network`received
      ensures base.Valid()
      // A run ends with Done and no error, with an error, at a flag, or with an exception.
      ensures outcome == Finished ==> base.doneSet && base.m_error.None? && base.m_status == Done
      ensures outcome == Failed ==> base.m_error.Some?
      ensures outcome == Stopped ==> base.Flagged()
      ensures base.doneWithError == old(base.doneWithError)
      // What the peer received is a prefix of the composed request; in a finished run it is all of it ...
      ensures network.received == WithMore(old(network.received), run.peer, run.sent)
      ensures run.sent <= old(request.Data())
      ensures outcome == Finished ==> run.sent == old(request.Data()) == request.m_request_data
      // ... and the peer the first address: after a failover the recorded error ends the run at the head, ...
      ensures outcome == Finished ==> run.peer == FirstHost()
      // ... and what was delivered is the body that the head of the answer announces.
      ensures outcome == Finished ==>
        Answered(network.hosts(run.peer), run.head, base.m_response, base.delivered, async, network.calm,
          cs, last, tail)
      // The bytes counted are the bytes delivered. The response holds them, and a file does unless it was
      // truncated or removed in between.
      ensures base.m_bytes_read == old(base.m_bytes_read) + |base.delivered|
      ensures outcome == Finished ==> base.Collects()
      ensures base.m_output_to_file ==>
        ((base.m_output == Some(base.delivered))
         <==> (base.m_output.Some? && NothingLost(old(base.m_output), base.events)))
    {
      hide Answered, NothingLost, WithMore, RequestBase.Valid, RequestBase.Flagged, Content, WrittenBytes;
      hide RequestComposer.HttpRequest.Data;
      base.BeginRun();
      run := Run("", "", FirstHost());
      NothingMore(network.received, run.peer);
      var socket;
      outcome, socket := Connect(async);
      if outcome == Finished {
        outcome, run := Converse(socket, async, cs, last, tail);
      }
      if base.m_output_to_file {
        OutputIsCompleteIff(base);
      }
    }

    /** What happens over a connected socket. */
    method Converse(socket: TcpSocket, async: bool, ghost cs: seq<Chunk>, ghost last: Chunk, ghost tail: string)
      returns (outcome: Outcome, ghost run: Run)
      requires base.Valid() && request.Valid() && base.delivered == ""
      requires socket.stream == socket.network.hosts(socket.peer)
      modifies socket`stream, socket.network`received, socket`error
      modifies base`m_request_data, base`m_max_frame_size
      modifies base`m_response, base`delivered, base`m_bytes_read, base`m_bytes_to_read
      modifies base`m_error, base`m_status, base`m_paused, base`m_canceled, base`late, base`lateBytes
      modifies base`m_output, base`m_output_file, base`events
      modifies base`doneSet, base`doneWithError, base`clock
      modifies request`m_request_data, request`m_body, request`m_request_composed, request.m_headers
      ensures base.Valid() && run.peer == socket.peer
      ensures base.m_max_frame_size == if async then 255 else old(base.m_max_frame_size)
      ensures outcome == Finished ==> old(base.m_error).None? && base.doneSet && base.m_error.None?
      ensures outcome == Finished ==> base.m_status == Done && base.Collects()
      ensures outcome == Failed ==> base.m_error.Some?
      ensures outcome == Stopped ==> base.Flagged()
      ensures base.doneWithError == old(base.doneWithError)
      ensures base.m_bytes_read == old(base.m_bytes_read) + |base.delivered|
      ensures socket.network.received == WithMore(old(socket.network.received), run.peer, run.sent)
      ensures run.sent <= old(request.Data()) && request.m_request_data == old(request.Data())
      ensures outcome == Finished ==> run.sent == request.m_request_data
      ensures outcome == Finished ==>
        Answered(socket.network.hosts(run.peer), run.head, base.m_response, base.delivered, async,
          socket.network.calm, cs, last, tail)
    {
      hide HeadComplete, ParsedHead, BodyRead, WithMore, RequestBase.Valid, RequestBase.Flagged;
      hide RequestComposer.HttpRequest.Data;
      var head, start, bytesWritten;
      outcome, head, start, bytesWritten := Exchange(socket, async);
      run := Run(request.m_request_data[..bytesWritten], head, socket.peer);
      if outcome == Finished {
        assert socket.network.hosts(run.peer)[|head|..] == socket.stream;
        outcome := ReadResponse(socket, head, start, async, cs, last, tail);
        if outcome == Finished {
          EveryAnswerIsDelivered(socket.network.hosts(run.peer), head, base.m_response, base.delivered, async,
            socket.network.calm, cs, last, tail);
        }
      }
    }

    /** The response object and the body behind the head. */
    method ReadResponse(socket: TcpSocket, head: string, start: int, async: bool,
                        ghost cs: seq<Chunk>, ghost last: Chunk, ghost tail: string)
      returns (outcome: Outcome)
      requires base.Valid() && start <= base.clock && base.delivered == ""
      modifies socket`stream, socket`error
      modifies base`m_response, base`delivered, base`m_bytes_read, base`m_bytes_to_read
      modifies base`m_error, base`m_status, base`m_paused, base`m_canceled, base`late, base`lateBytes
      modifies base`m_output, base`m_output_file, base`events
      modifies base`doneSet, base`doneWithError, base`clock
      ensures base.Valid()
      ensures outcome == Finished ==> base.doneSet && base.m_error.None? && base.m_status == Done
      ensures base.m_bytes_read == old(base.m_bytes_read) + |base.delivered|
      ensures outcome == Finished ==> old(base.m_error).None? && base.Collects()
      ensures outcome == Failed ==> base.m_error.Some?
      ensures outcome == Stopped ==> base.Flagged()
      ensures base.doneWithError == old(base.doneWithError)
      ensures outcome == Finished ==>
        ParsedHead(head).Ok? && SameHead(base.m_response, ParsedHead(head).value)
        && BodyRead(ParsedHead(head).value, old(socket.stream), base.delivered, async, socket.network.calm,
             cs, last, tail)
    {
      hide BodyRead, Content, WrittenBytes;
      var response := ParsedHead(head);
      if response.Thrown? {
        outcome := Aborted;
      } else {
        base.m_response := response.value;
        if base.m_error.Some? {
          outcome := Failed;
        } else {
          outcome := ReadBody(socket, start, async, cs, last, tail);
        }
      }
    }
  }

  /** What a run leaves behind: the bytes sent, the head read and the peer. */
  datatype Run = Run(sent: string, head: string, peer: Ipv4)

  /** The chunk read next may have lost or gained characters; the others are as they were sent. */
  ghost predicate AllReceivable(cs: seq<Chunk>, last: Chunk) {
    && Receivable(First(cs, last)) && last.data == "" && (cs != [] ==> cs[0].data != "" && ValidChunk(last))
    && forall i :: 1 <= i < |cs| ==> ValidChunk(cs[i]) && cs[i].data != ""
  }

  /** Between two chunks: the chunks left are on the wire, and what has been delivered lacks only their data. */
  ghost predicate AtSize(stream: string, delivered: string, left: seq<Chunk>, last: Chunk, tail: string,
                         total: string)
  {
    AllReceivable(left, last) && stream == Wire(left, last, tail) && delivered + Payload(left) == total
  }

  /** Behind the size line of the first chunk left. */
  ghost predicate AtData(stream: string, delivered: string, size: int, left: seq<Chunk>, last: Chunk, tail: string,
                         total: string)
  {
    && AllReceivable(left, last) && left != [] && size == |left[0].data|
    && stream == left[0].data + (CRLF + Wire(left[1..], last, tail)) && delivered + Payload(left) == total
  }

  /** The chunks behind the first one when `skipped` bytes of the line end have been read: when it was one, the
      line feed stands in front of the next size. */
  function Behind(left: seq<Chunk>, last: Chunk, skipped: nat): seq<Chunk> {
    var rest := if left == [] then [] else left[1..];
    if skipped == 1 then Resized(rest, "\n" + First(rest, last).size) else rest
  }

  function LastBehind(left: seq<Chunk>, last: Chunk, skipped: nat): Chunk {
    var rest := if left == [] then [] else left[1..];
    if skipped == 1 then LastResized(rest, last, "\n" + First(rest, last).size) else last
  }

  /** The chunks left when n characters of the next size have been dropped. */
  function Shortened(left: seq<Chunk>, last: Chunk, n: nat): seq<Chunk> {
    var size := First(left, last).size;
    Resized(left, if n <= |size| then size[n..] else size)
  }

  function LastShortened(left: seq<Chunk>, last: Chunk, n: nat): Chunk {
    var size := First(left, last).size;
    LastResized(left, last, if n <= |size| then size[n..] else size)
  }

  lemma ChunksAhead(stream: string, delivered: string, cs: seq<Chunk>, last: Chunk, tail: string)
    requires OnWire(stream, cs, last, tail)
    ensures AtSize(stream, delivered, cs, last, tail, delivered + Payload(cs))
  {
    ValidIsReceivable(First(cs, last));
  }

  lemma ResizedReceivable(cs: seq<Chunk>, last: Chunk, size: string)
    requires AllReceivable(cs, last) && Receivable(First(cs, last).(size := size))
    ensures AllReceivable(Resized(cs, size), LastResized(cs, last, size))
  {
    hide Receivable, ValidChunk;
  }

  /** The wire with another size in front of it. */
  lemma AtResized(delivered: string, left: seq<Chunk>, last: Chunk, tail: string, total: string, size: string)
    requires AllReceivable(left, last) && delivered + Payload(left) == total
    requires Receivable(First(left, last).(size := size))
    ensures AtSize(size + BehindSize(left, last, tail), delivered, Resized(left, size), LastResized(left, last, size),
              tail, total)
  {
    ResizedReceivable(left, last, size);
    ResizedWire(left, last, tail, size);
    hide Wire, Payload, Receivable, ValidChunk, AllReceivable, Resized, LastResized, BehindSize;
  }

  lemma RestOfSize(size: string, more: string, dropped: string, rest: string)
    requires size + more == dropped + rest && dropped <= size
    ensures size[..|dropped|] == dropped && rest == size[|dropped|..] + more
  {
    assert (size + more)[|dropped|..] == size[|dropped|..] + more;
    assert (dropped + rest)[|dropped|..] == rest;
  }

  /** On the wire, what is skippable is what is harmless in front of a size. */
  lemma SkippableIsHarmless(c: Chunk, more: string, dropped: string, rest: string)
    requires Receivable(c) && c.size + more == dropped + rest
    requires more != "" && (more[0] == ';' || more[0] == '\r')
    ensures Skippable(dropped, rest) <==> Harmless(c.size, dropped)
  {
    var text, n := c.size + more, |dropped|;
    assert text[|c.size|] == more[0] && DigitValue(more[0]) == 16;
    assert text[..n] == dropped && text[n..] == rest;
    SizeCharacters(c);
    if n < |c.size| {
      assert c.size[..n] == text[..n];
      assert rest[0] == c.size[n];
      LastIsDigit(c, n);
    } else if n > |c.size| {
      assert dropped[|c.size|] == more[0];
    } else {
      assert rest[0] == more[0];
    }
  }

  lemma BehindSizeBegins(cs: seq<Chunk>, last: Chunk, tail: string)
    requires Receivable(First(cs, last))
    ensures var more := BehindSize(cs, last, tail); more != "" && (more[0] == ';' || more[0] == '\r')
  {
  }

  lemma SizeCharacters(c: Chunk)
    requires Receivable(c)
    ensures c.size != ""
  {
  }

  /** Behind its first character a size has digits only. */
  lemma LastIsDigit(c: Chunk, n: nat)
    requires Receivable(c) && n < |c.size|
    ensures DigitValue(c.size[n]) < 16 || (n == 0 && c.size[n] == '\n')
  {
    var u := Digits(c.size);
    var k := |c.size| - |u|;
    assert n >= k ==> c.size[n] == u[n - k];
  }

  /** What was dropped of a size line was harmless. */
  lemma SizeShortened(stream: string, delivered: string, left: seq<Chunk>, last: Chunk, tail: string, total: string,
                      dropped: string, rest: string)
    requires AtSize(stream, delivered, left, last, tail, total) && stream == dropped + rest
    requires Skippable(dropped, rest)
    ensures AtSize(rest, delivered, Shortened(left, last, |dropped|), LastShortened(left, last, |dropped|), tail, total)
  {
    hide Wire, Payload, Receivable, ValidChunk, BehindSize, Resized, LastResized;
    var size, n := First(left, last).size, |dropped|;
    WireBegins(left, last, tail);
    BehindSizeBegins(left, last, tail);
    SkippableIsHarmless(First(left, last), BehindSize(left, last, tail), dropped, rest);
    RestOfSize(size, BehindSize(left, last, tail), dropped, rest);
    SizeLeft(First(left, last), n);
    hide Harmless, SizeRead;
    AtResized(delivered, left, last, tail, total, size[n..]);
  }

  /** At least one byte of the line end behind the data has been read. */
  lemma LineEndSkipped(stream: string, delivered: string, size: int, left: seq<Chunk>, last: Chunk, tail: string,
                       total: string, skipped: nat)
    requires AtData(stream, delivered, size, left, last, tail, total) && 0 < skipped <= 2
    ensures 0 <= size && size + 2 <= |stream|
    ensures AtSize(stream[size..][skipped..], delivered + stream[..size], Behind(left, last, skipped),
              LastBehind(left, last, skipped), tail, total)
  {
    var data, rest := left[0].data, left[1..];
    Associative(delivered, data, Payload(rest));
    AfterData(data, Wire(rest, last, tail));
    AllBehind(left, last);
    hide Wire, Receivable, ValidChunk, AllReceivable, Payload, Resized, LastResized, BehindSize;
    if skipped == 1 {
      WireBegins(rest, last, tail);
      var longer := "\n" + First(rest, last).size;
      Associative("\n", First(rest, last).size, BehindSize(rest, last, tail));
      AtResized(delivered + data, rest, last, tail, total, longer);
    }
  }

  lemma AfterData(data: string, wire: string)
    ensures var stream := data + (CRLF + wire);
      |stream| >= |data| + 2 && stream[..|data|] == data
      && stream[|data|..][1..] == "\n" + wire && stream[|data|..][2..] == wire
  {
    assert (data + (CRLF + wire))[|data|..] == CRLF + wire;
  }

  /** The chunks behind the first one are as they were sent. */
  lemma AllBehind(left: seq<Chunk>, last: Chunk)
    requires left != [] && AllReceivable(left, last)
    ensures var c := First(left[1..], last);
      AllReceivable(left[1..], last) && Receivable(c.(size := "\n" + c.size))
  {
    ValidIsReceivable(First(left[1..], last));
  }

  lemma SizeNeedsText(text: string)
    ensures text == "" ==> SizeRead(text).Thrown?
  {
  }

  /** What follows from the size line, whose end is the first one in the stream: it ends the body, or the data
      of a chunk follows. */
  lemma NextSize(stream: string, delivered: string, left: seq<Chunk>, last: Chunk, tail: string, total: string)
    requires AtSize(stream, delivered, left, last, tail, total)
    ensures delivered <= total
    ensures exists i: nat :: FirstAt(stream, CRLF, i)
    ensures forall i: nat :: FirstAt(stream, CRLF, i) ==>
      SizeRead(stream[..i + 2]).Ok?
      && var size := SizeRead(stream[..i + 2]).value;
         if size == 0 then stream[i + 2..] == tail && delivered == total
         else left != [] && AtData(stream[i + 2..], delivered, size, left, last, tail, total)
  {
    var c := First(left, last);
    var rest := if left == [] then tail else left[0].data + (CRLF + Wire(left[1..], last, tail));
    var i := |SizeLine(c)|;
    SizeLineEnds(c, rest);
    SizeLineReads(c);
    assert stream == SizeLine(c) + CRLF + rest && stream[..i + 2] == SizeLine(c) + CRLF && stream[i + 2..] == rest;
    assert delivered + "" == delivered;
    forall j: nat | FirstAt(stream, CRLF, j) ensures j == i {
      FirstIsUnique(stream, CRLF, i, j);
    }
  }

  /** n bytes of the data have been delivered. */
  lemma DataDelivered(stream: string, delivered: string, size: int, left: seq<Chunk>, last: Chunk, tail: string,
                      total: string, n: nat)
    requires AtData(stream, delivered, size, left, last, tail, total) && n <= Counted(size)
    ensures n <= |stream| && delivered + stream[..n] <= total
    ensures n == Counted(size) ==> stream[n..] != ""
  {
    var data := left[0].data;
    Parts(delivered, data, Payload(left[1..]), n);
    assert stream[..n] == data[..n];
  }

  lemma Parts(sink: string, data: string, more: string, n: nat)
    requires n <= |data|
    ensures sink + data[..n] <= sink + (data + more)
    ensures sink + data + more == sink + (data + more)
  {
  }

  /** `head` has been read from the front of `all`, and the first blank line is still ahead. */
  ghost predicate HeadSoFar(all: string, head: string, rest: string) {
    all == head + rest
    && forall i: nat :: FirstAt(all, BLANK, i) ==> |head| <= i && FirstAt(rest, BLANK, i - |head|)
  }

  /** What a call of readUntil took from a stream. */
  ghost predicate Taken(stream: string, data: string, rest: string, complete: bool) {
    stream == data + rest
    && forall i: nat :: FirstAt(stream, BLANK, i) ==> if complete then data == stream[..i + 4] else |data| <= i
  }

  lemma NoHeadYet(all: string)
    ensures HeadSoFar(all, "", all)
  {
    assert "" + all == all;
  }

  lemma HeadGrows(all: string, head: string, stream: string, data: string, rest: string, complete: bool)
    requires HeadSoFar(all, head, stream) && Taken(stream, data, rest, complete)
    ensures all == head + data + rest
    ensures if complete then HeadComplete(all, head + data) else HeadSoFar(all, head + data, rest)
  {
    forall i: nat | FirstAt(all, BLANK, i)
      ensures if complete then head + data == all[..i + 4]
        else |head + data| <= i && FirstAt(rest, BLANK, i - |head + data|)
    {
      if !complete {
        FirstInRest(data, rest, i - |head|);
      }
    }
  }

  lemma FirstInRest(data: string, rest: string, i: nat)
    requires FirstAt(data + rest, BLANK, i) && |data| <= i
    ensures FirstAt(rest, BLANK, i - |data|)
  {
    var all := data + rest;
    assert all[i..i + 4] == rest[i - |data|..i - |data| + 4];
    forall k: nat | k < i - |data| ensures !OccursAt(rest, BLANK, k) {
      assert !OccursAt(all, BLANK, k + |data|);
      assert k + 4 <= |rest| ==> all[k + |data|..k + |data| + 4] == rest[k..k + 4];
    }
  }
}
