/** A TCP socket as the transfer loops see it: a byte stream that may accept or deliver any number of bytes
    per call. A byte is modelled as the character with its code. */
module Sockets {
  import opened Text
  import opened Numbers
  import opened Ipv4Address

  datatype SocketError =
    | NoError
    | ConnectTryAgain
    | ConnectInProgress
    | ConnectAlreadyInProcess
    | WriteTryAgain
    | ReadTryAgain
    | ReadDone
    | TimedOut
    | Fatal(code: nat)

  /** What may get lost in front of a number without changing it: nothing, or zeros and line feeds with a
      hexadecimal digit behind them. */
  predicate Skippable(data: string, rest: string) {
    data == ""
    || (rest != "" && DigitValue(rest[0]) < 16 && forall i :: 0 <= i < |data| ==> data[i] == '0' || data[i] == '\n')
  }

  /** What each address has received, with `data` more at `peer`. */
  function WithMore(received: map<Ipv4, string>, peer: Ipv4, data: string): map<Ipv4, string> {
    if data == "" then received
    else received[peer := (if peer in received then received[peer] else "") + data]
  }

  lemma NothingMore(received: map<Ipv4, string>, peer: Ipv4)
    ensures WithMore(received, peer, "") == received
  {
  }

  lemma MoreTwice(received: map<Ipv4, string>, peer: Ipv4, a: string, b: string)
    ensures WithMore(WithMore(received, peer, a), peer, b) == WithMore(received, peer, a + b)
  {
    if a == "" {
      assert a + b == b;
    } else if b == "" {
      assert a + b == a;
    } else {
      var before := if peer in received then received[peer] else "";
      Associative(before, a, b);
      assert received[peer := before + a][peer := before + a + b] == received[peer := before + (a + b)];
    }
  }

  class Network {
    /** What the host at each address sends once it is connected to. */
    const hosts: Ipv4 -> string
    /** Nothing that matters gets lost in front of a line end that is tried again, and a read of a line end takes
        at least one byte when there is one. Reads of other data are split as they may be. */
    const calm: bool
    /** What each address has received. */
    ghost var received: map<Ipv4, string>

    constructor (hosts: Ipv4 -> string, calm: bool)
      ensures this.hosts == hosts && this.calm == calm && received == map[]
    {
      this.hosts, this.calm := hosts, calm;
      received := map[];
    }
  }

  class TcpSocket {
    const network: Network
    var destination: Ipv4
    var connected: bool
    /** The host that it is connected to. */
    var peer: Ipv4
    var error: SocketError
    /** What the peer still has to deliver. */
    var stream: string

    constructor (network: Network, destination: Ipv4)
      ensures this.network == network && this.destination == destination
      ensures !connected && stream == ""
    {
      this.network, this.destination, this.peer := network, destination, destination;
      connected, stream := false, "";
      error := *;
    }

    method SetDestinationHost(ip: Ipv4)
      modifies this`destination
      ensures destination == ip
    {
      destination := ip;
    }

    method ResetError()
      modifies this`error
      ensures error == NoError
    {
      error := NoError;
    }

    /** Connects, or reports that it has to be tried again, or fails. */
    method Connect()
      modifies this`connected, this`peer, this`error, this`stream
      ensures !old(connected) && connected ==> peer == destination && stream == network.hosts(peer)
      ensures !connected || old(connected) ==> stream == old(stream) && peer == old(peer)
      ensures old(connected) ==> connected
    {
      error := *;
      var now: bool := *;
      if now && !connected {
        connected, peer, stream := true, destination, network.hosts(destination);
      }
    }

    /** Accepts any number of the bytes offered. */
    method Write(data: string) returns (n: nat)
      modifies this`error, network`received
      ensures n <= |data| && network.received == WithMore(old(network.received), peer, data[..n])
    {
      error := *;
      n :| n <= |data|;
      network.received := WithMore(network.received, peer, data[..n]);
    }

    /** Delivers any number of bytes up to `size`; `lineEnd` says that they are to end a line. */
    method Read(size: nat, lineEnd: bool) returns (data: string)
      modifies this`stream, this`error
      ensures |data| <= size && old(stream) == data + stream
      ensures network.calm && lineEnd && size > 0 && old(stream) != "" ==> data != ""
    {
      error := *;
      var n: nat :| n <= size && n <= |stream| && (network.calm && size > 0 && stream != "" && n == 0 ==> !lineEnd);
      data, stream := stream[..n], stream[n..];
    }

    /** Delivers what stands up to the delimiter and the delimiter itself; or a part of what stands before
        it, with the error that says to try again or another one; or, from a stream without it, all the rest
        or a part. */
    method ReadUntil(delimiter: string) returns (data: string)
      modifies this`stream, this`error
      ensures old(stream) == data + stream
      ensures forall i: nat :: FirstAt(old(stream), delimiter, i) ==>
        if error == NoError || error == ReadDone then data == old(stream)[..i + |delimiter|] else |data| <= i
      ensures network.calm && delimiter == CRLF && error != NoError && error != ReadDone ==> Skippable(data, stream)
    {
      error := *;
      var n: nat := 0;
      var whole := error == NoError || error == ReadDone;
      if exists i: nat :: i <= |stream| && FirstAt(stream, delimiter, i) {
        var i: nat :| i <= |stream| && FirstAt(stream, delimiter, i);
        if whole {
          n := i + |delimiter|;
        } else {
          n := Part(i, network.calm && delimiter == CRLF);
        }
      } else {
        n := Part(|stream|, !whole && network.calm && delimiter == CRLF);
      }
      data, stream := stream[..n], stream[n..];
    }

    /** Any part of the next `limit` bytes; `calm` leaves those whose loss does not matter. */
    method Part(limit: nat, calm: bool) returns (n: nat)
      requires limit <= |stream|
      ensures n <= limit && (calm ==> Skippable(stream[..n], stream[n..]))
    {
      var k: int := *;
      if 0 <= k <= limit && (calm ==> Skippable(stream[..k], stream[k..])) {
        return k;
      }
      return 0;
    }
  }
}
