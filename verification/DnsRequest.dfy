/** The DNS query of dns_request.cpp (sections 4.1.1 and 4.1.2 of RFC 1035). */
module DnsQuery {
  import opened Text
  import opened Bytes
  import opened DnsNames

  const HEADER_SIZE := 12

  /** The header in memory: the id as it is, a recursive query, one question. */
  function HeaderBytes(id: Uint16): (h: seq<Byte>)
    ensures |h| == HEADER_SIZE
  {
    Memory16(id) + Memory16(Swap16(0x0100)) + Memory16(Swap16(1)) + [0, 0, 0, 0, 0, 0]
  }

  /** Type 1 and class 1. */
  function QuestionTail(): seq<Byte> {
    Memory16(Swap16(1)) + Memory16(Swap16(1))
  }

  /** Every label fits its length byte. */
  predicate AllShort(labels: Name) {
    forall i :: 0 <= i < |labels| ==> |labels[i]| <= 255
  }

  /** Each label behind its length. */
  function Prefixed(labels: Name): seq<Byte>
    requires AllShort(labels)
  {
    if labels == [] then []
    else Prefixed(labels[..|labels| - 1]) + [|labels[|labels| - 1]|] + labels[|labels| - 1]
  }

  /** The query for a host: its labels are the pieces between the dots. */
  function Query(id: Uint16, host: seq<Byte>): seq<Byte>
    requires AllShort(Split(host, DOT))
  {
    HeaderBytes(id) + Prefixed(Split(host, DOT)) + [0] + QuestionTail()
  }

  class DnsRequest {
    var m_request_data: seq<Byte>
    var m_id: Uint16

    /** DnsRequest(const std::string&), for the random id it draws. A zero is left in front of each label
        and patched with the 8-bit length once the label is complete. */
    constructor (host: seq<Byte>, id: Uint16)
      ensures m_id == id
      ensures AllShort(Split(host, DOT)) ==> m_request_data == Query(id, host)
    {
      hide Written;
      var data: seq<Byte> := HeaderBytes(id);
      data := data + [0];
      var labelSize: Byte := 0;
      ghost var labels: Name, current: seq<Byte> := [], [];
      NothingWritten(id, host);
      for i := 0 to |host|
        invariant Written(id, host, i, data, labelSize, labels, current)
      {
        var ch := host[i];
        LabelFits(id, host, i, data, labelSize, labels, current);
        if ch == DOT {
          LabelComplete(id, host, i, data, labelSize, labels, current);
          data := data[|data| - labelSize - 1 := labelSize];
          labelSize := 0;
          labels, current := labels + [current], [];
          data := data + [0];
          continue;
        }
        LabelGrows(id, host, i, data, labelSize, labels, current);
        data := data + [ch];
        labelSize := (labelSize + 1) % 256;
        current := current + [ch];
      }
      LabelFits(id, host, |host|, data, labelSize, labels, current);
      HostComplete(id, host, data, labelSize, labels, current);
      data := data[|data| - labelSize - 1 := labelSize];
      data := data + [0];
      m_request_data := data + QuestionTail();
      m_id := id;
    }
  }

  /** The header of a query, and what stands behind its labels: a recursive query with one question, for an address
      on the Internet. */
  lemma QueryOnTheWire(id: Uint16, host: seq<Byte>)
    requires AllShort(Split(host, DOT))
    ensures var m := Query(id, host);
      |m| >= 17 && m[..12] == Memory16(id) + [1, 0, 0, 1, 0, 0, 0, 0, 0, 0] && m[|m| - 5..] == [0, 0, 1, 0, 1]
  {
    var m, h, labels := Query(id, host), HeaderBytes(id), Prefixed(Split(host, DOT));
    assert h == Memory16(id) + [1, 0, 0, 1, 0, 0, 0, 0, 0, 0];
    assert QuestionTail() == [0, 1, 0, 1];
    hide HeaderBytes, QuestionTail, Prefixed, Split, AllShort;
    assert m == h + (labels + [0, 0, 1, 0, 1]);
    assert m[|m| - 5..] == [0, 0, 1, 0, 1];
  }

  /** What has been written when `labels` are complete and `current` still has a zero in front of it. */
  ghost function Unfinished(id: Uint16, labels: Name, current: seq<Byte>): seq<Byte>
    requires AllShort(labels)
  {
    HeaderBytes(id) + Prefixed(labels) + [0] + current
  }

  /** The state of the loop in front of character i. */
  ghost predicate Written(id: Uint16, host: seq<Byte>, i: nat, data: seq<Byte>, labelSize: Byte, labels: Name,
                          current: seq<Byte>)
  {
    && i <= |host| && Split(host[..i], DOT) == labels + [current]
    && labelSize == |current| % 256 && |data| > |current|
    && (AllShort(labels) && |current| <= 255 ==> data == Unfinished(id, labels, current))
  }

  lemma NothingWritten(id: Uint16, host: seq<Byte>)
    ensures Written(id, host, 0, HeaderBytes(id) + [0], 0, [], [])
  {
    SplitPiece([], DOT);
    assert host[..0] == [];
  }

  lemma OneMore(n: nat)
    ensures (n % 256 + 1) % 256 == (n + 1) % 256
  {
  }

  lemma LabelFits(id: Uint16, host: seq<Byte>, i: nat, data: seq<Byte>, labelSize: Byte, labels: Name,
                  current: seq<Byte>)
    requires Written(id, host, i, data, labelSize, labels, current)
    ensures labelSize < |data|
  {
  }

  lemma LabelGrows(id: Uint16, host: seq<Byte>, i: nat, data: seq<Byte>, labelSize: Byte, labels: Name,
                   current: seq<Byte>)
    requires Written(id, host, i, data, labelSize, labels, current) && i < |host| && host[i] != DOT
    ensures Written(id, host, i + 1, data + [host[i]], (labelSize + 1) % 256, labels, current + [host[i]])
  {
    hide AllShort, HeaderBytes, Prefixed, Split;
    assert host[..i + 1] == host[..i] + [host[i]];
    SplitAppend(host[..i], host[i], DOT);
    OneMore(|current|);
    assert ExtendLast(labels + [current], host[i]) == labels + [current + [host[i]]];
    if AllShort(labels) {
      Associative(HeaderBytes(id) + Prefixed(labels) + [0], current, [host[i]]);
    }
  }

  lemma LabelComplete(id: Uint16, host: seq<Byte>, i: nat, data: seq<Byte>, labelSize: Byte, labels: Name,
                      current: seq<Byte>)
    requires Written(id, host, i, data, labelSize, labels, current) && i < |host| && host[i] == DOT
    requires labelSize < |data|
    ensures Written(id, host, i + 1, data[|data| - labelSize - 1 := labelSize] + [0], 0, labels + [current], [])
  {
    hide AllShort, Unfinished, Split;
    assert host[..i + 1] == host[..i] + [host[i]];
    SplitAppend(host[..i], host[i], DOT);
    LengthPatched(id, labels, current);
  }

  lemma HostComplete(id: Uint16, host: seq<Byte>, data: seq<Byte>, labelSize: Byte, labels: Name, current: seq<Byte>)
    requires Written(id, host, |host|, data, labelSize, labels, current)
    requires labelSize < |data|
    ensures AllShort(Split(host, DOT)) ==>
      data[|data| - labelSize - 1 := labelSize] + [0] + QuestionTail() == Query(id, host)
  {
    hide AllShort, Unfinished, Split, Prefixed, HeaderBytes, QuestionTail;
    assert host[..|host|] == host;
    var all := labels + [current];
    LengthPatched(id, labels, current);
    assert AllShort(all) ==> data[|data| - labelSize - 1 := labelSize] == HeaderBytes(id) + Prefixed(all);
  }

  /** Writing the length over the zero in front of the last label completes it. */
  lemma LengthPatched(id: Uint16, labels: Name, current: seq<Byte>)
    ensures AllShort(labels + [current]) <==> AllShort(labels) && |current| <= 255
    ensures AllShort(labels + [current]) ==>
      var data := Unfinished(id, labels, current);
      |data| > |current|
      && data[|data| - |current| - 1 := |current|] == HeaderBytes(id) + Prefixed(labels + [current])
      && data[|data| - |current| - 1 := |current|] + [0] == Unfinished(id, labels + [current], [])
  {
    AllShortAppend(labels, current);
    if AllShort(labels) && |current| <= 255 {
      hide AllShort, HeaderBytes;
      var before := HeaderBytes(id) + Prefixed(labels);
      assert (labels + [current])[..|labels|] == labels;
      assert Prefixed(labels + [current]) == Prefixed(labels) + [|current|] + current;
      Patch(before, current);
      Associative(HeaderBytes(id), Prefixed(labels) + [|current|], current);
      Associative(HeaderBytes(id), Prefixed(labels), [|current|]);
      assert before + [|current|] + current + [0] + [] == before + [|current|] + current + [0];
    }
  }

  lemma AllShortAppend(labels: Name, current: seq<Byte>)
    ensures AllShort(labels + [current]) <==> AllShort(labels) && |current| <= 255
  {
    assert (labels + [current])[|labels|] == current;
    assert forall i :: 0 <= i < |labels| ==> (labels + [current])[i] == labels[i];
  }

  lemma Patch(before: seq<Byte>, current: seq<Byte>)
    requires |current| <= 255
    ensures (before + [0] + current)[|before| := |current|] == before + [|current|] + current
  {
  }
}
