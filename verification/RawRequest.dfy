/** Raw requests: processRequest and _asyncProcessRequest of raw_request.cpp. */
module RawRequests {
  import opened Text
  import opened Ipv4Address
  import opened Sockets
  import opened RequestBases
  import opened OutputFiles

  class RawRequest {
    const base: RequestBase
    const network: Network
    const hostIp: Ipv4

    constructor (base: RequestBase, network: Network, hostIp: Ipv4)
      ensures this.base == base && this.network == network && this.hostIp == hostIp
    {
      this.base, this.network, this.hostIp := base, network, hostIp;
    }

    /** The connect loop. */
    method Connect() returns (outcome: Outcome, socket: TcpSocket)
      requires base.Valid()
      modifies base`m_error, base`m_status, base`m_paused, base`m_canceled, base`late, base`lateBytes
      modifies base`m_output, base`m_output_file, base`events
      modifies base`doneSet, base`doneWithError, base`clock
      ensures base.Valid() && fresh(socket) && outcome != Aborted && socket.network == network
      ensures outcome == Finished ==> socket.peer == hostIp && socket.stream == network.hosts(hostIp)
      ensures if outcome == Failed then base.m_error.Some? && base.NoFile() else base.m_error == old(base.m_error)
      ensures outcome == Stopped ==> base.Flagged()
      ensures base.doneSet == old(base.doneSet) && base.doneWithError == old(base.doneWithError)
    {
      hide RequestBase.TimeLeft, RequestBase.Flagged, RequestBase.Valid;
      socket := new TcpSocket(network, hostIp);
      var start;
      outcome, start := base.BeginTransfer(socket);
      if outcome == Failed {
        return;
      }
      socket.SetDestinationHost(hostIp);
      while !socket.connected
        invariant base.Valid() && start <= base.clock && fresh(socket)
        invariant socket.network == network && socket.destination == hostIp
        invariant socket.connected ==> socket.peer == hostIp && socket.stream == network.hosts(hostIp)
        invariant base.m_error == old(base.m_error)
        invariant base.doneSet == old(base.doneSet) && base.doneWithError == old(base.doneWithError)
        decreases base.TimeLeft(start)
      {
        outcome := base.TryHost(socket, start);
        if outcome != Finished {
          return;
        }
        if !socket.connected {
          socket.ResetError();
        }
      }
      outcome := Finished;
    }

    /** processRequest; _asyncProcessRequest differs in its frames, whose size it keeps in eight bits. */
    method ProcessRequest(async: bool) returns (outcome: Outcome, ghost sent: string)
      requires base.Valid()
      modifies base, network`received
      ensures base.Valid() && outcome != Aborted
      ensures base.m_request_data == old(base.m_request_data) && base.m_bytes_to_read == old(base.m_bytes_to_read)
      // What the peer received is a prefix of the request, and all of it before anything was read.
      ensures network.received == WithMore(old(network.received), hostIp, sent)
      ensures sent <= base.m_request_data && (base.delivered != "" ==> sent == base.m_request_data)
      // What was delivered is the beginning of what the peer sent, up to the count.
      ensures base.delivered <= network.hosts(hostIp) && |base.delivered| <= Counted(base.m_bytes_to_read)
      ensures base.m_bytes_read == old(base.m_bytes_read) + |base.delivered|
      ensures outcome == Finished ==>
        sent == base.m_request_data && |base.delivered| == Counted(base.m_bytes_to_read)
        && base.doneSet && base.m_error == old(base.m_error)
      // The response holds just that, and a file does unless it was truncated or removed in between.
      ensures outcome == Finished && base.m_bytes_to_read != 0 ==>
        base.m_response == RawResponse(if base.m_output_to_file then "" else base.delivered)
      ensures base.m_output_to_file ==>
        ((base.m_output == Some(base.delivered))
         <==> (base.m_output.Some? && NothingLost(old(base.m_output), base.events)))
      ensures outcome == Failed ==> base.m_error.Some? && (old(base.m_error).None? ==> base.NoFile())
      ensures outcome == Stopped ==> base.Flagged()
      ensures base.doneWithError == (old(base.doneWithError) || (outcome == Finished && old(base.m_error).Some?))
    {
      hide Content, WrittenBytes, NothingLost, WithMore;
      sent := "";
      NothingMore(network.received, hostIp);
      base.BeginRun();
      var socket;
      outcome, socket := Connect();
      if outcome == Finished {
        outcome, sent := Transfer(socket, async);
      }
      if base.m_output_to_file {
        OutputIsCompleteIff(base);
      }
    }

    /** A new response, and the bytes asked for. */
    method ReadAnswer(socket: TcpSocket, narrow: nat) returns (outcome: Outcome)
      requires base.Valid() && base.m_max_frame_size < narrow && base.delivered == ""
      modifies socket`stream, socket`error
      modifies base`m_response, base`delivered, base`m_bytes_read
      modifies base`m_error, base`m_status, base`m_paused, base`m_canceled, base`late, base`lateBytes
      modifies base`m_output, base`m_output_file, base`events
      modifies base`doneSet, base`doneWithError, base`clock
      ensures base.Valid() && outcome != Aborted
      ensures base.delivered <= old(socket.stream) && |base.delivered| <= Counted(base.m_bytes_to_read)
      ensures base.m_bytes_read == old(base.m_bytes_read) + |base.delivered|
      ensures base.Collects() && base.m_response.RawResponse?
      ensures outcome == Finished ==> |base.delivered| == Counted(base.m_bytes_to_read)
      ensures if outcome == Failed then base.m_error.Some? else base.m_error == old(base.m_error)
      ensures outcome == Failed && old(base.m_error).None? ==> base.NoFile()
      ensures outcome == Stopped ==> base.Flagged()
      ensures base.doneSet == old(base.doneSet) && base.doneWithError == old(base.doneWithError)
    {
      hide Content, WrittenBytes;
      base.m_response := RawResponse("");
      var start;
      ghost var passed;
      outcome, start, passed := base.ReadCounted(socket, base.m_bytes_to_read, narrow);
      assert "" + old(socket.stream)[..passed] == old(socket.stream)[..passed];
    }

    /** Writing the request. */
    method Send(socket: TcpSocket, async: bool) returns (outcome: Outcome, ghost sent: string)
      requires base.Valid()
      modifies socket.network`received, socket`error, base`m_max_frame_size
      modifies base`m_error, base`m_status, base`m_paused, base`m_canceled, base`late, base`lateBytes
      modifies base`m_output, base`m_output_file, base`events
      modifies base`doneSet, base`doneWithError, base`clock
      ensures base.Valid() && outcome != Aborted && (async ==> base.m_max_frame_size == 255)
      ensures socket.network.received == WithMore(old(socket.network.received), socket.peer, sent)
      ensures sent <= base.m_request_data && (outcome == Finished ==> sent == base.m_request_data)
      ensures if outcome == Failed then base.m_error.Some? && base.NoFile() else base.m_error == old(base.m_error)
      ensures outcome == Stopped ==> base.Flagged()
      ensures base.doneSet == old(base.doneSet) && base.doneWithError == old(base.doneWithError)
    {
      hide RequestBase.Flagged, RequestBase.Valid, RequestBase.NoFile, WithMore;
      if async {
        base.UseSmallFrames();
      }
      var bytesWritten;
      outcome, bytesWritten := base.WriteRequest(socket);
      sent := base.m_request_data[..bytesWritten];
    }

    /** Writing the request and reading the bytes asked for. */
    method Transfer(socket: TcpSocket, async: bool) returns (outcome: Outcome, ghost sent: string)
      requires base.Valid() && base.delivered == ""
      modifies socket`stream, socket.network`received, socket`error
      modifies base`m_response, base`delivered, base`m_bytes_read, base`m_max_frame_size
      modifies base`m_error, base`m_status, base`m_paused, base`m_canceled, base`late, base`lateBytes
      modifies base`m_output, base`m_output_file, base`events
      modifies base`doneSet, base`doneWithError, base`clock
      ensures base.Valid() && outcome != Aborted
      ensures socket.network.received == WithMore(old(socket.network.received), socket.peer, sent)
      ensures sent <= base.m_request_data && (base.delivered != "" ==> sent == base.m_request_data)
      ensures base.delivered <= old(socket.stream) && |base.delivered| <= Counted(base.m_bytes_to_read)
      ensures base.m_bytes_read == old(base.m_bytes_read) + |base.delivered|
      ensures outcome == Finished ==>
        sent == base.m_request_data && |base.delivered| == Counted(base.m_bytes_to_read)
        && base.doneSet && base.m_error == old(base.m_error)
      ensures outcome == Finished && base.m_bytes_to_read != 0 ==>
        base.m_response == RawResponse(if base.m_output_to_file then "" else base.delivered)
      ensures outcome == Failed ==> base.m_error.Some? && (old(base.m_error).None? ==> base.NoFile())
      ensures outcome == Stopped ==> base.Flagged()
      ensures base.doneWithError == (old(base.doneWithError) || (outcome == Finished && old(base.m_error).Some?))
    {
      hide RequestBase.Flagged, RequestBase.Valid, RequestBase.NoFile, RequestBase.TimeLeft, WithMore;
      outcome, sent := Send(socket, async);
      base.FramesAreShort();
      if outcome == Finished && base.m_bytes_to_read != 0 {
        outcome := ReadAnswer(socket, if async then UINT8 else UINT16);
      }
      if outcome == Finished {
        base.SetStatus(Done);
      }
    }
  }
}
