/** What every request shares: status, error, flags, response data and the socket check of base_request.cpp;
    and the loops that write a request and read a counted body, which raw and HTTP requests repeat. */
module RequestBases {
  import opened Text
  import opened Ipv4Address
  import opened Sockets
  import opened OutputFiles
  import Headers

  datatype Status = Waiting | Processed | Error | Writing | Reading | Paused | Resumed | Canceled | Done

  datatype RequestError =
    | SocketFailure(error: SocketError)
    | FilePathEmpty
    | FileNotOpened
    | ResponseSizeError
    | BadUrl

  datatype Response =
    | NoResponse
    | RawResponse(data: string)
    | HttpResponse(status: int, headers: seq<Headers.Header>, data: string)

  /** How a phase ends: at its end, at a flag, with an error, or with an exception. */
  datatype Outcome = Finished | Stopped | Failed | Aborted

  const SECOND := 1_000_000

  /** Conversion to uint16_t and to uint8_t. */
  const UINT16: nat := 0x1_0000
  const UINT8: nat := 0x100

  /** The frame of one call: the smaller of the limit and what remains, converted to a narrow integer. */
  function FrameSize(limit: nat, remain: int, narrow: nat): int
    requires narrow > 0
  {
    (if limit < remain then limit else remain) % narrow
  }

  /** The conversion never changes the size. */
  lemma FrameSizeIsExact(limit: nat, remain: int, narrow: nat)
    requires limit < narrow && remain >= 0
    ensures FrameSize(limit, remain, narrow) == if limit < remain then limit else remain
  {
  }

  class RequestBase {
    var m_request_data: string
    var m_response: Response
    var m_error: Option<RequestError>
    var m_status: Status
    var m_paused: bool
    var m_canceled: bool
    var m_bytes_to_read: int
    var m_bytes_read: int
    var m_max_frame_size: nat
    const m_timeout: int
    const m_output_to_file: bool
    const m_output_path: string
    /** Whether the stream m_output_file is there, and so open; and the content of the file at m_output_path. */
    var m_output_file: bool
    var m_output: Option<string>

    /** The system clock, in microseconds. */
    var clock: int
    /** Calls of addResponseData since neither flag was set; at most one, of at most one frame. */
    ghost var late: nat
    /** The bytes that these calls have passed on. */
    ghost var lateBytes: nat
    /** Done has been set; it has been set while an error was recorded. */
    ghost var doneSet: bool
    ghost var doneWithError: bool
    /** Since the run began: what the file held then, what has happened to it, and the bytes that
        addResponseData has passed on, to the response or to the file. */
    ghost var outputBefore: Option<string>
    ghost var events: seq<FileEvent>
    ghost var delivered: string

    predicate Flagged()
      reads this`m_paused, this`m_canceled
    {
      m_paused || m_canceled
    }

    ghost predicate Valid()
      reads this
    {
      && 0 < m_max_frame_size <= 65535
      && late <= 1 && (!Flagged() ==> late == 0)
      && lateBytes < UINT16 && (late == 0 ==> lateBytes == 0)
      && delivered == WrittenBytes(events)
      && (m_output_to_file ==> m_output == Content(outputBefore, events))
    }

    /** The response holds what has been delivered; with an output file it stays empty. */
    ghost predicate Collects()
      reads this`m_response, this`delivered
    {
      m_response != NoResponse && m_response.data == if m_output_to_file then "" else delivered
    }

    /** The output file, if there is to be one, does not exist. */
    predicate NoFile()
      reads this`m_output
    {
      m_output_to_file ==> m_output.None?
    }

    /** The microseconds until the timeout. */
    function TimeLeft(start: int): nat
      reads this`clock
    {
      var left := start + m_timeout * SECOND - clock;
      if left > 0 then left else 0
    }

    constructor (timeout: int, outputPath: Option<string>, error: Option<RequestError>)
      ensures Valid() && m_timeout == timeout && m_output_to_file == outputPath.Some? && m_error == error
      ensures m_request_data == "" && m_response == NoResponse && m_status == Waiting && !Flagged()
      ensures m_bytes_to_read == 0 && m_bytes_read == 0 && !m_output_file && !doneSet && !doneWithError
      ensures delivered == "" && events == [] && m_max_frame_size == 65535
    {
      m_request_data, m_response, m_error, m_status := "", NoResponse, error, Waiting;
      m_paused, m_canceled := false, false;
      m_bytes_to_read, m_bytes_read, m_max_frame_size := 0, 0, UINT16 - 1;
      m_timeout, m_output_to_file := timeout, outputPath.Some?;
      m_output_path := if outputPath.Some? then outputPath.value else "";
      m_output_file, m_output, clock := false, *, *;
      late, lateBytes, doneSet, doneWithError := 0, 0, false, false;
      events, delivered := [], "";
      new;
      outputBefore := m_output;
    }

    /** A run begins. */
    ghost method BeginRun()
      requires Valid()
      modifies this`outputBefore, this`events, this`delivered
      ensures Valid() && outputBefore == m_output && events == [] && delivered == ""
    {
      outputBefore, events, delivered := m_output, [], "";
    }

    /** The coroutines limit their frames to what eight bits hold. */
    method UseSmallFrames()
      requires Valid()
      modifies this`m_max_frame_size
      ensures Valid() && m_max_frame_size == 255
    {
      m_max_frame_size := UINT8 - 1;
    }

    /** A body of so many bytes is announced. */
    method Expect(bytesToRead: int)
      requires Valid()
      modifies this`m_bytes_to_read
      ensures Valid() && m_bytes_to_read == bytesToRead
    {
      m_bytes_to_read := bytesToRead;
    }

    /** What setStatus does to the output file: the stream is closed, and the file may be removed. */
    method CloseOutput(remove: bool)
      requires Valid()
      modifies this`m_output, this`m_output_file, this`events
      ensures Valid() && !m_output_file
      ensures m_output == if remove && m_output_to_file then None else old(m_output)
      ensures events == old(events) + [if remove then Removed else Closed]
    {
      hide WrittenBytes, Content;
      BytesAppend(events, if remove then Removed else Closed);
      ContentAppend(outputBefore, events, if remove then Removed else Closed);
      m_output_file := false;
      if remove && m_output_to_file {
        m_output := None;
      }
      events := events + [if remove then Removed else Closed];
    }

    /** setStatus, for the statuses that a user sets from any thread. */
    method SetUserStatus(status: Status)
      requires Valid() && status in {Paused, Resumed, Canceled}
      modifies this`m_status, this`m_paused, this`m_canceled, this`late, this`lateBytes
      modifies this`m_output, this`m_output_file, this`events
      ensures Valid() && m_status == status
      ensures m_paused == (if status == Paused then true else if status == Resumed then false else old(m_paused))
      ensures m_canceled == (old(m_canceled) || status == Canceled)
      ensures late == if Flagged() then old(late) else 0
      ensures status == Resumed ==> m_output_file == old(m_output_file) && m_output == old(m_output)
      ensures status != Resumed ==> !m_output_file
      ensures m_output == if status == Canceled && m_output_to_file then None else old(m_output)
      ensures events == old(events) + match status case Paused => [Closed] case Canceled => [Removed] case _ => []
    {
      hide WrittenBytes, Content;
      if status == Paused {
        m_paused := true;
        CloseOutput(false);
      } else if status == Resumed {
        m_paused := false;
      } else {
        m_canceled := true;
        CloseOutput(true);
      }
      m_status := status;
      late, lateBytes := if Flagged() then late else 0, if Flagged() then lateBytes else 0;
    }

    /** cancel, pauseProcessing and continueProcessing. */
    method Cancel()
      requires Valid()
      modifies this`m_status, this`m_paused, this`m_canceled, this`late, this`lateBytes
      modifies this`m_output, this`m_output_file, this`events
      ensures Valid() && m_canceled && late <= old(late)
      ensures !m_output_file && NoFile()
    {
      SetUserStatus(Canceled);
    }

    method PauseProcessing()
      requires Valid()
      modifies this`m_status, this`m_paused, this`m_canceled, this`late, this`lateBytes
      modifies this`m_output, this`m_output_file, this`events
      ensures Valid() && m_paused && m_canceled == old(m_canceled) && late <= old(late)
      ensures !m_output_file && m_output == old(m_output) && events == old(events) + [Closed]
    {
      SetUserStatus(Paused);
    }

    method ContinueProcessing()
      requires Valid()
      modifies this`m_status, this`m_paused, this`m_canceled, this`late, this`lateBytes
      modifies this`m_output, this`m_output_file, this`events
      ensures Valid() && !m_paused && m_canceled == old(m_canceled) && late <= old(late) && (!m_canceled ==> late == 0)
      ensures m_output_file == old(m_output_file) && m_output == old(m_output) && events == old(events)
    {
      SetUserStatus(Resumed);
    }

    /** Another thread may cancel, pause or resume the request at any time; a flag it clears and sets again
        in between starts a new count. */
    method Interfere()
      requires Valid()
      modifies this`m_status, this`m_paused, this`m_canceled, this`late, this`lateBytes
      modifies this`m_output, this`m_output_file, this`events
      ensures Valid() && (old(m_canceled) ==> m_canceled)
      ensures late <= old(late)
    {
      var resume: bool, pause: bool, resumeAgain: bool, cancel: bool := *, *, *, *;
      if resume {
        ContinueProcessing();
      }
      if pause {
        PauseProcessing();
      }
      if resumeAgain {
        ContinueProcessing();
      }
      if cancel {
        Cancel();
      }
    }

    /** The two flag tests at the head of every loop. */
    method StopRequested() returns (stop: bool)
      requires Valid()
      modifies this`m_status, this`m_paused, this`m_canceled, this`late, this`lateBytes
      modifies this`m_output, this`m_output_file, this`events
      ensures Valid() && late <= old(late) && (if stop then Flagged() else late == 0)
    {
      Interfere();
      if m_paused {
        return true;
      }
      Interfere();
      if m_canceled {
        return true;
      }
      return false;
    }

    /** setStatus, for the statuses that the transfer itself sets. */
    method SetStatus(status: Status)
      requires Valid() && status in {Processed, Error, Writing, Reading, Done}
      modifies this`m_status, this`doneSet, this`doneWithError
      modifies this`m_output, this`m_output_file, this`events
      ensures Valid() && m_status == status
      ensures m_output == if status == Error && m_output_to_file then None else old(m_output)
      ensures m_output_file == (old(m_output_file) && status != Error && status != Done)
      ensures doneSet == (old(doneSet) || status == Done)
      ensures doneWithError == (old(doneWithError) || (status == Done && m_error.Some?))
    {
      hide WrittenBytes, Content;
      if status == Error || status == Done {
        CloseOutput(status == Error);
      }
      m_status := status;
      doneSet := doneSet || status == Done;
      doneWithError := doneWithError || (status == Done && m_error.Some?);
    }

    method SetError(error: RequestError)
      requires Valid()
      modifies this`m_error, this`m_status, this`doneSet, this`doneWithError
      modifies this`m_output, this`m_output_file, this`events
      ensures Valid() && !m_output_file && NoFile()
      ensures m_error == Some(error) && m_status == Error
      ensures doneSet == old(doneSet) && doneWithError == old(doneWithError)
    {
      m_error := Some(error);
      SetStatus(Error);
    }

    /** The clock never shows the same time twice. */
    method Now() returns (now: int)
      requires Valid()
      modifies this`clock
      ensures Valid() && clock == now && now > old(clock)
    {
      var step :| step > 0;
      clock := clock + step;
      now := clock;
    }

    /** checkSocketOperationErrorAndTimeOut. */
    method CheckSocketOperationErrorAndTimeOut(socket: TcpSocket, start: int) returns (ok: bool)
      requires Valid() && start <= clock
      modifies this`m_error, this`m_status, this`doneSet, this`doneWithError, this`clock
      modifies this`m_output, this`m_output_file, this`events
      ensures Valid() && old(clock) <= clock
      ensures ok ==> m_output == old(m_output) && m_output_file == old(m_output_file) && events == old(events)
      ensures !ok ==> !m_output_file && NoFile()
      ensures ok ==> m_error == old(m_error) && m_status == old(m_status) && clock > old(clock)
      ensures ok <==> !socket.error.Fatal? && !socket.error.TimedOut? && (clock - start) / 1_000_000 < m_timeout
      ensures ok ==> TimeLeft(start) < old(TimeLeft(start))
      ensures !ok ==> m_status == Error && m_error == Some(SocketFailure(
        if socket.error.Fatal? || socket.error.TimedOut? then socket.error else TimedOut))
      ensures doneSet == old(doneSet) && doneWithError == old(doneWithError)
    {
      hide WrittenBytes, Content;
      var error := socket.error;
      if error != NoError && error != ConnectTryAgain && error != ConnectInProgress
        && error != ConnectAlreadyInProcess && error != WriteTryAgain && error != ReadTryAgain && error != ReadDone
      {
        SetError(SocketFailure(error));
        return false;
      }
      var end := Now();
      if (end - start) / SECOND >= m_timeout {
        SetError(SocketFailure(TimedOut));
        return false;
      }
      ElapsedBelow(end - start, m_timeout);
      return true;
    }

    /** The stream, when there is none: a new one truncates the file; if that fails, a second try in append
        mode does not. */
    method OpenOutput() returns (isOpen: bool)
      requires Valid() && m_output_to_file
      modifies this`m_output, this`m_output_file, this`events
      ensures Valid() && m_output_file == isOpen
      ensures old(m_output_file) ==> isOpen
      ensures isOpen ==> OpenedFrom(old(m_output_file), old(m_output), old(events), m_output, events)
      ensures !isOpen ==> m_output == old(m_output) && events == old(events)
    {
      hide WrittenBytes, Content;
      if m_output_file {
        return true;
      }
      var first: bool, second: bool := *, *;
      if first || second {
        BytesAppend(events, Opened(first));
        ContentAppend(outputBefore, events, Opened(first));
        m_output_file := true;
        m_output := if first then Some("") else Some(OrEmpty(m_output));
        events := events + [Opened(first)];
      }
      return first || second;
    }

    /** addResponseData; with an output file it may fail instead. */
    method AddResponseData(data: string) returns (ghost stored: bool)
      requires Valid() && late == 0 && (m_output_to_file || m_response != NoResponse)
      modifies this`m_response, this`m_output, this`m_output_file, this`events, this`delivered
      modifies this`m_bytes_read, this`late, this`lateBytes
      modifies this`m_error, this`m_status, this`doneSet, this`doneWithError
      ensures |data| < UINT16 ==> Valid()
      ensures late == (if Flagged() then 1 else 0) && lateBytes == if Flagged() && stored then |data| else 0
      ensures !m_output_to_file ==> stored
      ensures delivered == (if stored then old(delivered) + data else old(delivered))
      ensures m_bytes_read == old(m_bytes_read) + if stored then |data| else 0
      ensures m_response == if m_output_to_file then old(m_response)
        else old(m_response).(data := old(m_response).data + data)
      ensures stored && m_output_to_file ==>
        m_output_file && WrittenTo(old(m_output_file), old(m_output), old(events), data, m_output, events)
      ensures stored ==> m_error == old(m_error)
      ensures !stored ==> m_error == Some(if m_output_path == "" then FilePathEmpty else FileNotOpened) && NoFile()
      ensures doneSet == old(doneSet) && doneWithError == old(doneWithError)
    {
      hide WrittenBytes, Content;
      late := if Flagged() then late + 1 else 0;
      stored := true;
      if !m_output_to_file {
        m_response := m_response.(data := m_response.data + data);
        BytesAppend(events, Written(data));
        events, delivered := events + [Written(data)], delivered + data;
      } else {
        var written := WriteOutput(data);
        stored := written;
        if !written {
          return;
        }
      }
      lateBytes := if Flagged() then |data| else 0;
      m_bytes_read := m_bytes_read + |data|;
    }

    /** The file branch of addResponseData. */
    method WriteOutput(data: string) returns (stored: bool)
      requires Valid() && m_output_to_file
      modifies this`m_output, this`m_output_file, this`events, this`delivered
      modifies this`m_error, this`m_status, this`doneSet, this`doneWithError
      ensures Valid() && delivered == (if stored then old(delivered) + data else old(delivered))
      ensures stored ==>
        m_output_file && WrittenTo(old(m_output_file), old(m_output), old(events), data, m_output, events)
      ensures stored ==> m_error == old(m_error)
      ensures !stored ==> m_error == Some(if m_output_path == "" then FilePathEmpty else FileNotOpened) && NoFile()
      ensures doneSet == old(doneSet) && doneWithError == old(doneWithError)
    {
      hide WrittenBytes, Content;
      if m_output_path == "" {
        SetError(FilePathEmpty);
        return false;
      }
      var isOpen := OpenOutput();
      if !isOpen {
        SetError(FileNotOpened);
        return false;
      }
      BytesAppend(events, Written(data));
      ContentAppend(outputBefore, events, Written(data));
      OpenedThenWritten(old(m_output_file), old(m_output), old(events), m_output, events, data);
      m_output := Some(OrEmpty(m_output) + data);
      events, delivered := events + [Written(data)], delivered + data;
      return true;
    }

    /** The start of a transfer over a new socket. */
    method BeginTransfer(socket: TcpSocket) returns (outcome: Outcome, start: int)
      requires Valid()
      modifies this`m_error, this`m_status, this`doneSet, this`doneWithError, this`clock
      modifies this`m_output, this`m_output_file, this`events
      ensures Valid() && start <= clock && outcome == if socket.error == NoError then Finished else Failed
      ensures m_error == if outcome == Failed then Some(SocketFailure(socket.error)) else old(m_error)
      ensures outcome == Failed ==> NoFile()
      ensures doneSet == old(doneSet) && doneWithError == old(doneWithError)
    {
      start := clock;
      if socket.error != NoError {
        SetError(SocketFailure(socket.error));
        return Failed, start;
      }
      SetStatus(Processed);
      start := Now();
      outcome := Finished;
    }

    /** One attempt: the flags, connect() and the check. */
    method TryHost(socket: TcpSocket, start: int) returns (outcome: Outcome)
      requires Valid() && start <= clock && !socket.connected
      modifies socket`connected, socket`peer, socket`error, socket`stream
      modifies this`m_error, this`m_status, this`m_paused, this`m_canceled, this`late, this`lateBytes
      modifies this`m_output, this`m_output_file, this`events
      modifies this`doneSet, this`doneWithError, this`clock
      ensures Valid() && old(clock) <= clock && outcome != Aborted
      ensures socket.connected ==>
        socket.peer == socket.destination && socket.stream == socket.network.hosts(socket.peer)
      ensures outcome == Finished ==> TimeLeft(start) < old(TimeLeft(start))
      ensures if outcome == Failed then m_error.Some? && NoFile() else m_error == old(m_error)
      ensures outcome == Stopped ==> Flagged()
      ensures doneSet == old(doneSet) && doneWithError == old(doneWithError)
    {
      var stop := StopRequested();
      if stop {
        return Stopped;
      }
      socket.Connect();
      var ok := CheckSocketOperationErrorAndTimeOut(socket, start);
      outcome := if ok then Finished else Failed;
    }

    /** One round of the write loop, at `written` bytes. */
    method WriteFrame(socket: TcpSocket, written: nat, start: int) returns (outcome: Outcome, accepted: nat)
      requires Valid() && start <= clock && written < |m_request_data|
      modifies socket.network`received, socket`error
      modifies this`m_error, this`m_status, this`m_paused, this`m_canceled, this`late, this`lateBytes
      modifies this`m_output, this`m_output_file, this`events
      modifies this`doneSet, this`doneWithError, this`clock
      ensures Valid() && outcome != Aborted
      ensures written + accepted <= |m_request_data| && accepted <= m_max_frame_size
      ensures socket.network.received ==
        WithMore(old(socket.network.received), socket.peer, m_request_data[written..written + accepted])
      ensures old(clock) <= clock && (outcome == Finished ==> TimeLeft(start) < old(TimeLeft(start)))
      ensures if outcome == Failed then m_error.Some? && NoFile() else m_error == old(m_error)
      ensures outcome == Stopped ==> Flagged()
      ensures doneSet == old(doneSet) && doneWithError == old(doneWithError)
    {
      hide WrittenBytes, Content, WithMore;
      NothingMore(socket.network.received, socket.peer);
      accepted := 0;
      var stop := StopRequested();
      if stop {
        assert m_request_data[written..written] == "";
        return Stopped, 0;
      }
      var bytesRemain := |m_request_data| - written;
      FrameSizeIsExact(m_max_frame_size, bytesRemain, UINT16);
      var currentFrameSize := FrameSize(m_max_frame_size, bytesRemain, UINT16);
      var frame := m_request_data[written..written + currentFrameSize];
      accepted := socket.Write(frame);
      SliceOfSlice(m_request_data, written, currentFrameSize, accepted);
      var ok := CheckSocketOperationErrorAndTimeOut(socket, start);
      if !ok {
        return Failed, accepted;
      }
      if socket.error != NoError {
        socket.ResetError();
      }
      outcome := Finished;
    }

    /** The write loop: whatever the socket accepts per call, it has been handed a prefix of the request. */
    method WriteRequest(socket: TcpSocket) returns (outcome: Outcome, bytesWritten: nat)
      requires Valid()
      modifies socket.network`received, socket`error
      modifies this`m_error, this`m_status, this`m_paused, this`m_canceled, this`late, this`lateBytes
      modifies this`m_output, this`m_output_file, this`events
      modifies this`doneSet, this`doneWithError, this`clock
      ensures Valid() && outcome != Aborted
      ensures bytesWritten <= |m_request_data|
      ensures socket.network.received ==
        WithMore(old(socket.network.received), socket.peer, m_request_data[..bytesWritten])
      ensures outcome == Finished ==> bytesWritten == |m_request_data|
      ensures if outcome == Failed then m_error.Some? && NoFile() else m_error == old(m_error)
      ensures outcome == Stopped ==> Flagged()
      ensures doneSet == old(doneSet) && doneWithError == old(doneWithError) && old(clock) <= clock
    {
      hide WrittenBytes, Content, WithMore, RequestBase.TimeLeft, RequestBase.Flagged, RequestBase.Valid;
      NothingMore(socket.network.received, socket.peer);
      bytesWritten := 0;
      var bytesToWrite := |m_request_data|;
      SetStatus(Writing);
      var start := Now();
      while bytesWritten < bytesToWrite
        invariant Valid() && start <= clock && old(clock) <= clock && bytesWritten <= bytesToWrite
        invariant socket.network.received ==
          WithMore(old(socket.network.received), socket.peer, m_request_data[..bytesWritten])
        invariant m_error == old(m_error) && doneSet == old(doneSet) && doneWithError == old(doneWithError)
        decreases TimeLeft(start)
      {
        var round, accepted := WriteFrame(socket, bytesWritten, start);
        PrefixGrows(old(socket.network.received), socket.peer, m_request_data, bytesWritten, accepted);
        bytesWritten := bytesWritten + accepted;
        if round != Finished {
          return round, bytesWritten;
        }
      }
      outcome := Finished;
    }

    lemma FramesAreShort()
      requires Valid()
      ensures 0 < m_max_frame_size < UINT16 && late <= 1
    {
    }

    /** Handing a frame on; a flag may have been raised since it was tested. */
    method Deliver(data: string) returns (ok: bool, ghost stored: bool)
      requires Valid() && late == 0 && Collects() && |data| < UINT16
      modifies this`m_response, this`delivered, this`m_bytes_read
      modifies this`m_error, this`m_status, this`m_paused, this`m_canceled, this`late, this`lateBytes
      modifies this`m_output, this`m_output_file, this`events
      modifies this`doneSet, this`doneWithError
      ensures Valid() && Collects() && SameHead(m_response, old(m_response))
      ensures lateBytes <= |data| && (ok ==> stored)
      ensures delivered == (if stored then old(delivered) + data else old(delivered))
      ensures m_bytes_read == old(m_bytes_read) + if stored then |data| else 0
      ensures if ok then m_error == old(m_error) else m_error.Some? && (old(m_error).None? ==> NoFile())
      ensures doneSet == old(doneSet) && doneWithError == old(doneWithError)
    {
      hide WrittenBytes, Content;
      Interfere();
      stored := AddResponseData(data);
      ok := m_error.None?;
    }

    /** The first half of it: the flags, a read of at most one frame, and the check. */
    method TakeFrame(socket: TcpSocket, remain: nat, narrow: nat, start: int) returns (outcome: Outcome, data: string)
      requires Valid() && start <= clock && m_max_frame_size < narrow && remain > 0
      modifies socket`stream, socket`error
      modifies this`m_error, this`m_status, this`m_paused, this`m_canceled, this`late, this`lateBytes
      modifies this`m_output, this`m_output_file, this`events
      modifies this`doneSet, this`doneWithError, this`clock
      ensures Valid() && outcome != Aborted && old(clock) <= clock && late <= old(late)
      ensures |data| <= remain && |data| <= m_max_frame_size && old(socket.stream) == data + socket.stream
      ensures outcome == Finished ==> late == 0 && TimeLeft(start) < old(TimeLeft(start))
      ensures outcome == Stopped ==> data == "" && Flagged()
      ensures if outcome == Failed then m_error.Some? && NoFile() else m_error == old(m_error)
      ensures doneSet == old(doneSet) && doneWithError == old(doneWithError)
    {
      hide RequestBase.Valid, RequestBase.Flagged;
      data := "";
      var stop := StopRequested();
      if stop {
        outcome := Stopped;
        return;
      }
      FrameSizeIsExact(m_max_frame_size, remain, narrow);
      var currentFrameSize := FrameSize(m_max_frame_size, remain, narrow);
      data := socket.Read(currentFrameSize, false);
      var ok := CheckSocketOperationErrorAndTimeOut(socket, start);
      outcome := if ok then Finished else Failed;
    }

    /** One round of a read loop that still wants `remain` bytes. */
    method ReadFrame(socket: TcpSocket, remain: nat, narrow: nat, start: int)
      returns (outcome: Outcome, bytes: nat, ghost data: string, ghost stored: bool)
      requires Valid() && start <= clock && m_max_frame_size < narrow && remain > 0
      requires Collects()
      modifies socket`stream, socket`error
      modifies this`m_response, this`delivered, this`m_bytes_read
      modifies this`m_error, this`m_status, this`m_paused, this`m_canceled, this`late, this`lateBytes
      modifies this`m_output, this`m_output_file, this`events
      modifies this`doneSet, this`doneWithError, this`clock
      ensures Valid() && outcome != Aborted
      ensures bytes == |data| <= remain && |data| <= m_max_frame_size && old(socket.stream) == data + socket.stream
      ensures late > old(late) ==> lateBytes <= m_max_frame_size
      ensures Collects() && delivered == (if stored then old(delivered) + data else old(delivered))
      ensures m_bytes_read == old(m_bytes_read) + if stored then |data| else 0
      ensures outcome == Finished ==> stored && TimeLeft(start) < old(TimeLeft(start))
      ensures outcome == Stopped ==> data == ""
      ensures if outcome == Failed then m_error.Some? else m_error == old(m_error)
      ensures outcome == Failed && old(m_error).None? ==> NoFile()
      ensures outcome == Stopped ==> Flagged()
      ensures old(clock) <= clock && SameHead(m_response, old(m_response))
      ensures doneSet == old(doneSet) && doneWithError == old(doneWithError)
    {
      hide RequestBase.Valid, RequestBase.Collects, RequestBase.Flagged;
      bytes, data, stored := 0, "", false;
      FramesAreShort();
      var received;
      outcome, received := TakeFrame(socket, remain, narrow, start);
      bytes, data := |received|, received;
      if outcome != Finished {
        return;
      }
      stored := true;
      if received != "" {
        var ok;
        ok, stored := Deliver(received);
        if !ok {
          outcome := Failed;
          return;
        }
      }
      if socket.error != NoError {
        socket.ResetError();
      }
      outcome := Finished;
    }

    /** The read loop for a counted body or chunk: however the socket splits the bytes, at most `bytesToRead`
        of them are taken from the stream, and `passed` of them, in order, have been delivered. */
    method ReadCounted(socket: TcpSocket, bytesToRead: int, narrow: nat)
      returns (outcome: Outcome, start: int, ghost passed: nat)
      requires Valid() && m_max_frame_size < narrow && Collects()
      modifies socket`stream, socket`error
      modifies this`m_response, this`delivered, this`m_bytes_read
      modifies this`m_error, this`m_status, this`m_paused, this`m_canceled, this`late, this`lateBytes
      modifies this`m_output, this`m_output_file, this`events
      modifies this`doneSet, this`doneWithError, this`clock
      ensures Valid() && outcome != Aborted
      ensures passed <= |old(socket.stream)|
      ensures Collects() && delivered == old(delivered) + old(socket.stream)[..passed]
      ensures m_bytes_read == old(m_bytes_read) + passed
      ensures |old(socket.stream)| - Counted(bytesToRead) <= |socket.stream| <= |old(socket.stream)| - passed
      ensures outcome != Failed ==> socket.stream == old(socket.stream)[passed..]
      ensures outcome == Finished ==> passed == Counted(bytesToRead)
      ensures if outcome == Failed then m_error.Some? else m_error == old(m_error)
      ensures outcome == Failed && old(m_error).None? ==> NoFile()
      ensures outcome == Stopped ==> Flagged()
      ensures SameHead(m_response, old(m_response)) && old(clock) < start <= clock
      ensures doneSet == old(doneSet) && doneWithError == old(doneWithError)
    {
      hide WrittenBytes, Content;
      passed := 0;
      var bytesRead := 0;
      start := Now();
      while bytesRead < bytesToRead
        invariant Valid() && old(clock) < start <= clock && passed == bytesRead <= Counted(bytesToRead)
        invariant passed <= |old(socket.stream)| && socket.stream == old(socket.stream)[passed..]
        invariant Collects() && delivered == old(delivered) + old(socket.stream)[..passed]
        invariant m_bytes_read == old(m_bytes_read) + passed && SameHead(m_response, old(m_response))
        invariant m_error == old(m_error) && doneSet == old(doneSet) && doneWithError == old(doneWithError)
        decreases TimeLeft(start)
      {
        var round, bytes;
        ghost var data, stored;
        round, bytes, data, stored := ReadFrame(socket, bytesToRead - bytesRead, narrow, start);
        PieceDelivered(old(delivered), old(socket.stream), passed, data, socket.stream);
        passed := if stored then passed + |data| else passed;
        if round != Finished {
          outcome := round;
          return;
        }
        bytesRead := bytesRead + bytes;
      }
      outcome := Finished;
    }
  }

  /** The output file holds exactly the delivered bytes if and only if it is there and nothing was lost: no byte
      had been delivered before it was truncated or removed, and without that it was empty at first. */
  lemma OutputIsCompleteIff(base: RequestBase)
    requires base.Valid() && base.m_output_to_file
    ensures (base.m_output == Some(base.delivered))
      <==> (base.m_output.Some? && NothingLost(base.outputBefore, base.events))
  {
    FileIsCompleteIff(base.outputBefore, base.events);
  }

  lemma SliceOfSlice(data: string, at: nat, size: nat, n: nat)
    requires at + size <= |data| && n <= size
    ensures data[at..at + size][..n] == data[at..at + n]
  {
  }

  lemma PrefixGrows(received: map<Ipv4, string>, peer: Ipv4, data: string, n: nat, more: nat)
    requires n + more <= |data|
    ensures WithMore(WithMore(received, peer, data[..n]), peer, data[n..n + more])
      == WithMore(received, peer, data[..n + more])
  {
    MoreTwice(received, peer, data[..n], data[n..n + more]);
    assert data[..n + more] == data[..n] + data[n..n + more];
  }

  /** One more piece of a stream of which n bytes have been passed on. */
  lemma PieceDelivered(before: string, stream: string, n: nat, data: string, rest: string)
    requires n <= |stream| && stream[n..] == data + rest
    ensures n + |data| <= |stream| && rest == stream[n + |data|..]
    ensures before + stream[..n] + data == before + stream[..n + |data|]
  {
    assert stream == stream[..n] + (data + rest);
  }

  /** Responses that differ in their data at most. */
  predicate SameHead(r: Response, s: Response) {
    match (r, s)
    case (NoResponse, NoResponse) => true
    case (RawResponse(_), RawResponse(_)) => true
    case (HttpResponse(a, hs, _), HttpResponse(b, gs, _)) => a == b && hs == gs
    case _ => false
  }

  /** A count that may be negative reads nothing. */
  function Counted(bytesToRead: int): nat {
    if bytesToRead > 0 then bytesToRead else 0
  }

  lemma ElapsedBelow(elapsed: int, timeout: int)
    ensures elapsed >= 0 && elapsed / SECOND < timeout ==> elapsed < timeout * SECOND
  {
  }
}
