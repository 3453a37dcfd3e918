/** The DNS response parser of dns_response.cpp (sections 3.2.1, 3.3.1, 4.1.1 and 4.1.3 of RFC 1035). */
module DnsReply {
  import opened Text
  import opened Bytes
  import opened Ipv4Address
  import opened DnsNames
  import opened DnsQuery

  datatype DnsError =
    | Success
    | Rcode(code: nat)
    | IncorrectResponseSize
    | ResponseIdMismatch
    | ResponseTypeNotSupported
    | UnknownError

  /** A 16-bit field in network order. */
  function Field(m: seq<Byte>, at: nat): Uint16
    requires at + 1 < |m|
  {
    var high: int, low: int := m[at], m[at + 1];
    256 * high + low
  }

  /** The four bytes read as an integer and stored again. */
  lemma FromMemory(b: Ipv4)
    ensures FromInteger(Read32(b[0], b[1], b[2], b[3]), Big) == b
  {
    IntegerRoundTrip(b, 0);
  }

  lemma FieldInHostOrder(m: seq<Byte>, at: nat)
    requires at + 1 < |m|
    ensures Swap16(Read16(m[at], m[at + 1])) == Field(m, at)
  {
    Memory16Inverse(0, m[at], m[at + 1]);
  }

  // The question.

  /** A name without pointers, every length up to 255: what Question reads. */
  function PlainName(m: seq<Byte>, at: nat): (name: Option<Name>)
    ensures name.Some? ==> at < |m|
    decreases |m| - at
  {
    if at >= |m| then None
    else if m[at] == 0 then Some([])
    else if at + 1 + m[at] > |m| then None
    else Cons(m[at + 1..at + 1 + m[at]], PlainName(m, at + 1 + m[at]))
  }

  function PlainEnd(m: seq<Byte>, at: nat): (end: nat)
    requires PlainName(m, at).Some?
    ensures at < end <= |m|
    decreases |m| - at
  {
    if m[at] == 0 then at + 1 else PlainEnd(m, at + 1 + m[at])
  }

  datatype Question = Question(name: seq<Byte>, type_: Uint16, class_: Uint16, next: nat)

  /** The question at `at`, or None when it does not fit into the message. */
  function QuestionAt(m: seq<Byte>, at: nat): (q: Option<Question>)
    ensures q.Some? ==> at < q.value.next <= |m|
  {
    if PlainName(m, at).None? then None
    else
      var end := PlainEnd(m, at);
      if end + 4 > |m| then None
      else Some(Question(Dotted(PlainName(m, at).value), Field(m, end), Field(m, end + 2), end + 4))
  }

  /** The Question constructor; None where the source reads past the end of the message. */
  method ParseQuestion(m: seq<Byte>, at: nat) returns (q: Option<Question>)
    ensures q == QuestionAt(m, at)
  {
    var name: seq<Byte> := [];
    var iter: nat := at;
    NameStarts(m, at);
    hide NameSoFar, QuestionAt;
    while iter < |m| && m[iter] != 0
      invariant NameSoFar(m, at, iter, name)
      decreases |m| - iter
    {
      NameGoesOn(m, at, iter, name);
      var size: nat := m[iter];
      iter := iter + 1;
      if iter + size > |m| {
        return None;
      }
      name := name + m[iter..iter + size];
      iter := iter + size;
      if iter >= |m| {
        return None;
      }
      if m[iter] != 0 {
        name := name + [DOT];
      }
    }
    NameEnds(m, at, iter, name);
    if iter >= |m| {
      return None;
    }
    iter := iter + 1;
    if iter + 4 > |m| {
      return None;
    }
    FieldInHostOrder(m, iter);
    FieldInHostOrder(m, iter + 2);
    q := Some(Question(name, Swap16(Read16(m[iter], m[iter + 1])), Swap16(Read16(m[iter + 2], m[iter + 3])), iter + 4));
  }

  /** `name` is what has been read of the name at `at` when its rest stands at `iter`. */
  ghost predicate NameSoFar(m: seq<Byte>, at: nat, iter: nat, name: seq<Byte>) {
    && (PlainName(m, at).Some? <==> PlainName(m, iter).Some?)
    && (PlainName(m, iter).Some? ==>
          PlainEnd(m, iter) == PlainEnd(m, at)
          && name + Dotted(PlainName(m, iter).value) == Dotted(PlainName(m, at).value))
  }

  lemma NameStarts(m: seq<Byte>, at: nat)
    ensures NameSoFar(m, at, at, [])
  {
    if PlainName(m, at).Some? {
      assert [] + Dotted(PlainName(m, at).value) == Dotted(PlainName(m, at).value);
    }
  }

  lemma NameGoesOn(m: seq<Byte>, at: nat, iter: nat, name: seq<Byte>)
    requires NameSoFar(m, at, iter, name) && iter < |m| && m[iter] != 0
    ensures var next := iter + 1 + m[iter];
      if next >= |m| then QuestionAt(m, at) == None
      else NameSoFar(m, at, next, if m[next] == 0 then name + m[iter + 1..next] else name + m[iter + 1..next] + [DOT])
  {
    if PlainName(m, iter).Some? {
      PlainStep(m, iter, name);
    }
  }

  lemma NameEnds(m: seq<Byte>, at: nat, iter: nat, name: seq<Byte>)
    requires NameSoFar(m, at, iter, name) && (iter < |m| ==> m[iter] == 0)
    ensures QuestionAt(m, at) ==
      if iter + 5 > |m| then None
      else Some(Question(name, Field(m, iter + 1), Field(m, iter + 3), iter + 5))
  {
    assert name + [] == name;
  }

  lemma PlainStep(m: seq<Byte>, at: nat, before: seq<Byte>)
    requires PlainName(m, at).Some? && m[at] != 0
    ensures PlainName(m, at + 1 + m[at]).Some?
    ensures var next := at + 1 + m[at];
      before + Dotted(PlainName(m, at).value) ==
        (if m[next] == 0 then before + m[at + 1..next] else before + m[at + 1..next] + [DOT])
          + Dotted(PlainName(m, next).value)
  {
    var next := at + 1 + m[at];
    var head, rest := m[at + 1..next], PlainName(m, next).value;
    DottedCons(head, rest);
    assert m[next] != 0 ==> rest != [];
    if rest != [] {
      assert before + (head + [DOT] + Dotted(rest)) == before + head + [DOT] + Dotted(rest);
    }
  }

  // The query read back.

  /** `part` stands in `m` at `at`. */
  predicate StandsAt(m: seq<Byte>, part: seq<Byte>, at: nat) {
    at + |part| <= |m| && m[at..at + |part|] == part
  }

  lemma StandsApart(m: seq<Byte>, a: seq<Byte>, b: seq<Byte>, at: nat)
    requires StandsAt(m, a + b, at)
    ensures StandsAt(m, a, at) && StandsAt(m, b, at + |a|)
  {
    var whole := m[at..at + |a + b|];
    assert m[at..at + |a|] == whole[..|a|] && m[at + |a|..at + |a| + |b|] == whole[|a|..];
  }

  lemma LastStandsApart(m: seq<Byte>, at: nat, labels: Name)
    requires AllShort(labels) && labels != [] && StandsAt(m, Prefixed(labels), at)
    ensures var init, last := labels[..|labels| - 1], labels[|labels| - 1];
      StandsAt(m, Prefixed(init), at) && StandsAt(m, [|last|] + last, at + |Prefixed(init)|)
      && at + |Prefixed(labels)| == at + |Prefixed(init)| + 1 + |last|
  {
    var init, last := labels[..|labels| - 1], labels[|labels| - 1];
    Associative(Prefixed(init), [|last|], last);
    hide Prefixed;
    StandsApart(m, Prefixed(init), [|last|] + last, at);
  }

  predicate NoneEmpty(labels: Name) {
    forall i :: 0 <= i < |labels| ==> labels[i] != []
  }

  lemma NothingPrefixed()
    ensures Prefixed([]) == []
  {
  }

  lemma {:induction false} PrefixedReadsBack(m: seq<Byte>, at: nat, labels: Name, rest: Name)
    requires AllShort(labels) && StandsAt(m, Prefixed(labels), at)
    requires PlainName(m, at + |Prefixed(labels)|) == Some(rest)
    requires NoneEmpty(labels)
    ensures PlainName(m, at) == Some(labels + rest)
    ensures PlainEnd(m, at) == PlainEnd(m, at + |Prefixed(labels)|)
    decreases |labels|
  {
    hide PlainName, PlainEnd, StandsAt, Prefixed;
    if labels == [] {
      NothingPrefixed();
      assert labels + rest == rest;
    } else {
      var n := |labels| - 1;
      var init, last := labels[..n], labels[n];
      LastStandsApart(m, at, labels);
      var p := at + |Prefixed(init)|;
      assert p + 1 + |last| == at + |Prefixed(labels)|;
      LastLabel(m, p, last, rest);
      PrefixedReadsBack(m, at, init, [last] + rest);
      assert init + ([last] + rest) == labels + rest;
    }
  }

  lemma LastLabel(m: seq<Byte>, at: nat, last: Label, rest: Name)
    requires 0 < |last| <= 255 && StandsAt(m, [|last|] + last, at)
    requires PlainName(m, at + 1 + |last|) == Some(rest)
    ensures PlainName(m, at) == Some([last] + rest) && PlainEnd(m, at) == PlainEnd(m, at + 1 + |last|)
  {
    StandsApart(m, [|last|], last, at);
    assert m[at] == m[at..at + 1][0] == |last|;
  }

  lemma QueryTail(header: seq<Byte>, name: seq<Byte>)
    ensures var m, n := header + name + [0] + QuestionTail(), |header| + |name|;
      |m| == n + 5 && StandsAt(m, name, |header|) && m[n] == 0 && Field(m, n + 1) == 1 && Field(m, n + 3) == 1
  {
    assert QuestionTail() == [0, 1, 0, 1];
  }

  lemma NonEmptyLabelsReadBack(id: Uint16, host: seq<Byte>)
    requires AllShort(Split(host, DOT)) && NoneEmpty(Split(host, DOT))
    ensures var m := Query(id, host);
      PlainName(m, HEADER_SIZE) == Some(Split(host, DOT))
      && QuestionAt(m, HEADER_SIZE) == Some(Question(host, 1, 1, |m|))
  {
    var m, labels := Query(id, host), Split(host, DOT);
    QueryTail(HeaderBytes(id), Prefixed(labels));
    assert m == HeaderBytes(id) + Prefixed(labels) + [0] + QuestionTail();
    hide Split, Join, Prefixed, HeaderBytes, Query, QuestionTail, AllShort, NoneEmpty;
    PrefixedReadsBack(m, HEADER_SIZE, labels, []);
    assert labels + [] == labels;
    JoinSplit(host, DOT);
  }

  lemma {:induction false} PrefixedConcat(a: Name, b: Name)
    requires AllShort(a) && AllShort(b)
    ensures AllShort(a + b) && Prefixed(a + b) == Prefixed(a) + Prefixed(b)
    decreases |b|
  {
    if b == [] {
      assert a + b == a && Prefixed(a) + [] == Prefixed(a);
    } else {
      var init, last := b[..|b| - 1], b[|b| - 1];
      assert (a + b)[..|a + b| - 1] == a + init;
      PrefixedConcat(a, init);
      Associative(Prefixed(a), Prefixed(init) + [|last|], last);
      Associative(Prefixed(a), Prefixed(init), [|last|]);
    }
  }

  lemma EmptyLabelIsZero(labels: Name)
    requires AllShort(labels) && labels != [] && labels[0] == []
    ensures Prefixed(labels) != [] && Prefixed(labels)[0] == 0
  {
    var head, rest: Name := [[]], labels[1..];
    assert labels == head + rest;
    PrefixedConcat(head, rest);
    assert head[..0] == [] && Prefixed(head) == [0];
  }

  /** The first empty label ends the name, and the question ends before the query does. */
  lemma EmptyLabelEndsName(id: Uint16, host: seq<Byte>, k: nat)
    requires AllShort(Split(host, DOT)) && k < |Split(host, DOT)|
    requires Split(host, DOT)[k] == [] && NoneEmpty(Split(host, DOT)[..k])
    ensures var m, first := Query(id, host), Split(host, DOT)[..k];
      QuestionAt(m, HEADER_SIZE).Some?
      && QuestionAt(m, HEADER_SIZE).value.name == Dotted(first)
      && QuestionAt(m, HEADER_SIZE).value.next < |m|
  {
    var m, labels := Query(id, host), Split(host, DOT);
    hide Prefixed, HeaderBytes, QuestionTail, NoneEmpty, Split, Join, PlainName, PlainEnd, StandsAt;
    QueryTail(HeaderBytes(id), Prefixed(labels));
    assert labels == labels[..k] + labels[k..];
    assert AllShort(labels[..k]) && AllShort(labels[k..]);
    EmptyLabelCuts(m, HEADER_SIZE, labels[..k], labels[k..]);
  }

  lemma EmptyLabelCuts(m: seq<Byte>, at: nat, first: Name, behind: Name)
    requires AllShort(first) && AllShort(behind) && AllShort(first + behind)
    requires StandsAt(m, Prefixed(first + behind), at)
    requires NoneEmpty(first) && behind != [] && behind[0] == []
    ensures PlainName(m, at) == Some(first) && PlainEnd(m, at) <= at + |Prefixed(first + behind)|
  {
    hide Prefixed, AllShort, NoneEmpty, PlainName, PlainEnd, StandsAt;
    PrefixedConcat(first, behind);
    EmptyLabelIsZero(behind);
    StandsApart(m, Prefixed(first), Prefixed(behind), at);
    RootStands(m, Prefixed(behind), at + |Prefixed(first)|);
    PrefixedReadsBack(m, at, first, []);
    assert first + [] == first;
  }

  lemma RootStands(m: seq<Byte>, part: seq<Byte>, at: nat)
    requires StandsAt(m, part, at) && part != [] && part[0] == 0
    ensures PlainName(m, at) == Some([]) && PlainEnd(m, at) == at + 1
  {
    assert m[at] == m[at..at + |part|][0];
  }

  /** The question of a query gives back the host, type 1 and class 1 and ends where the query ends, exactly when
      no label is empty. */
  lemma QueryReadsBackIff(id: Uint16, host: seq<Byte>)
    requires AllShort(Split(host, DOT))
    ensures var m := Query(id, host);
      QuestionAt(m, HEADER_SIZE) == Some(Question(host, 1, 1, |m|)) <==> NoneEmpty(Split(host, DOT))
  {
    hide Query, QuestionAt, Split, AllShort;
    var labels := Split(host, DOT);
    if NoneEmpty(labels) {
      NonEmptyLabelsReadBack(id, host);
    } else {
      var k := FirstEmpty(labels);
      EmptyLabelEndsName(id, host, k);
    }
  }

  lemma {:induction false} FirstEmpty(labels: Name) returns (k: nat)
    requires !NoneEmpty(labels)
    ensures k < |labels| && labels[k] == [] && NoneEmpty(labels[..k])
  {
    k := 0;
    while labels[k] != []
      invariant k < |labels| && NoneEmpty(labels[..k])
      invariant exists i :: k <= i < |labels| && labels[i] == []
      decreases |labels| - k
    {
      k := k + 1;
    }
  }

  // The answers.

  datatype Record =
    | Address(owner: seq<Byte>, ip: Ipv4)
    | Alias(owner: seq<Byte>, target: seq<Byte>)

  /** What the CNAME branch makes of its data: a text and where it stops reading, or it never comes back from a
      pointer, or it leaves the message. */
  datatype AliasDecoding = Stopped(text: seq<Byte>, next: nat) | Endless | Overread

  function Behind(text: seq<Byte>, rest: AliasDecoding): AliasDecoding {
    if rest.Stopped? then Stopped(text + rest.text, rest.next) else rest
  }

  /** Its loop goes on behind a pointer, and looks for the end of the data in front of a label only. */
  function AliasDecoded(m: seq<Byte>, at: nat, end: nat): (r: AliasDecoding)
    ensures r.Stopped? && at <= |m| ==> at <= r.next <= |m|
    decreases |m| - at
  {
    if at == end then Stopped([], at)
    else if at >= |m| then Overread
    else if m[at] == COMPRESSION then
      if at + 1 >= |m| || ToInt8(m[at + 1]) < 0 then Overread
      else
        match Entered(m, m[at + 1])
        case Text(name) => Behind(name, AliasDecoded(m, at + 2, end))
        case Loops => Endless
        case Outside => Overread
    else
      var next := at + 1 + m[at];
      if next >= |m| then Overread
      else if m[next] == 0 then Stopped(m[at + 1..next], next + 1)
      else Behind(m[at + 1..next] + [DOT], AliasDecoded(m, next, end))
  }

  /** An owner name: a two-byte pointer from which the decoder comes back. */
  predicate OwnerAt(m: seq<Byte>, at: nat) {
    at + 1 < |m| && m[at] == COMPRESSION && m[at + 1] <= INT8_OFFSET && Entered(m, m[at + 1]).Text?
  }

  /** A record of type A, with four bytes of data whatever its length says, ... */
  predicate AddressAt(m: seq<Byte>, at: nat) {
    at + 16 <= |m| && OwnerAt(m, at) && Field(m, at + 2) == 1
  }

  /** ... or of type CNAME. */
  predicate AliasAt(m: seq<Byte>, at: nat) {
    at + 12 <= |m| && OwnerAt(m, at) && Field(m, at + 2) == 5
    && AliasDecoded(m, at + 12, at + 12 + Field(m, at + 10)).Stopped?
  }

  function RecordAt(m: seq<Byte>, at: nat): Record
    requires AddressAt(m, at) || AliasAt(m, at)
  {
    var owner := Entered(m, m[at + 1]).text;
    if AddressAt(m, at) then Address(owner, m[at + 12..at + 16])
    else Alias(owner, AliasDecoded(m, at + 12, at + 12 + Field(m, at + 10)).text)
  }

  function RecordEnd(m: seq<Byte>, at: nat): (end: nat)
    requires AddressAt(m, at) || AliasAt(m, at)
    ensures at + 12 <= end <= |m|
  {
    if AddressAt(m, at) then at + 16 else AliasDecoded(m, at + 12, at + 12 + Field(m, at + 10)).next
  }

  /** The records from `at` to the end of the message, all of them of these two kinds. */
  function Answers(m: seq<Byte>, at: nat): Option<seq<Record>>
    requires at <= |m|
    decreases |m| - at
  {
    if at == |m| then Some([])
    else if AddressAt(m, at) || AliasAt(m, at) then
      var rest := Answers(m, RecordEnd(m, at));
      if rest.Some? then Some([RecordAt(m, at)] + rest.value) else None
    else None
  }

  /** A record of another type. */
  predicate UnsupportedAt(m: seq<Byte>, at: nat) {
    at + 12 <= |m| && OwnerAt(m, at) && Field(m, at + 2) != 1 && Field(m, at + 2) != 5
  }

  /** The records of the two kinds from `at` on, and where something else follows or the message ends. */
  function Readable(m: seq<Byte>, at: nat): (r: (seq<Record>, nat))
    requires at <= |m|
    ensures at <= r.1 <= |m|
    decreases |m| - at
  {
    if AddressAt(m, at) || AliasAt(m, at) then
      var rest := Readable(m, RecordEnd(m, at));
      ([RecordAt(m, at)] + rest.0, rest.1)
    else ([], at)
  }

  lemma {:induction false} AnswersAreReadable(m: seq<Byte>, at: nat)
    requires at <= |m|
    ensures Answers(m, at) == if Readable(m, at).1 == |m| then Some(Readable(m, at).0) else None
    decreases |m| - at
  {
    if AddressAt(m, at) || AliasAt(m, at) {
      hide AddressAt, AliasAt, RecordAt;
      AnswersAreReadable(m, RecordEnd(m, at));
    }
  }

  /** The addresses, in order. */
  function Ips(rs: seq<Record>): seq<Ipv4> {
    if rs == [] then [] else (if rs[0].Address? then [rs[0].ip] else []) + Ips(rs[1..])
  }

  function Push(names: seq<seq<Byte>>, name: seq<Byte>): seq<seq<Byte>> {
    if names != [] && names[|names| - 1] == name then names else names + [name]
  }

  /** An owner is noted unless it is the root or repeats the last name noted. */
  function AfterOwner(names: seq<seq<Byte>>, owner: seq<Byte>): seq<seq<Byte>> {
    if owner == [] then names else Push(names, owner)
  }

  /** The names noted; None when an alias comes before any of them. */
  function Names(noted: seq<seq<Byte>>, rs: seq<Record>): Option<seq<seq<Byte>>>
    decreases |rs|
  {
    if rs == [] then Some(noted)
    else
      var owned := AfterOwner(noted, rs[0].owner);
      if rs[0].Address? then Names(owned, rs[1..])
      else if owned == [] then None
      else Names(Push(owned, rs[0].target), rs[1..])
  }

  // The same records as the standard has them.

  predicate NameAt(m: seq<Byte>, at: nat) {
    Labels(m, at, at, INT8_OFFSET).Some?
  }

  /** The data of a CNAME record: a name other than the root, from `begin` to `end`. */
  ghost predicate AliasData(m: seq<Byte>, begin: nat, end: nat) {
    begin < |m| && m[begin] != 0 && NameAt(m, begin) && NameEnd(m, begin, begin, INT8_OFFSET) == end
  }

  lemma {:induction false} AliasNameDecoded(m: seq<Byte>, at: nat, begin: nat, end: nat)
    requires Labels(m, at, begin, INT8_OFFSET).Some? && m[at] != 0 && NameEnd(m, at, begin, INT8_OFFSET) == end
    ensures AliasDecoded(m, at, end) == Stopped(Spelled(m, at, begin), end)
    decreases |m| - at
  {
    if m[at] == COMPRESSION {
      AliasPointer(m, at, begin);
    } else {
      hide Labels, Spelled, NameEnd, AliasDecoded, Decoded;
      LabelSpelled(m, at, begin);
      LabelDecodedInline(m, at, end);
      var next := at + 1 + m[at];
      if m[next] != 0 {
        AliasNameDecoded(m, next, begin, end);
      }
    }
  }

  lemma LabelDecodedInline(m: seq<Byte>, at: nat, end: nat)
    requires at != end && at < |m| && m[at] != COMPRESSION && at + 1 + m[at] < |m|
    ensures var next := at + 1 + m[at];
      AliasDecoded(m, at, end) == (if m[next] == 0 then Stopped(m[at + 1..next], next + 1)
        else Behind(m[at + 1..next] + [DOT], AliasDecoded(m, next, end)))
  {
  }

  lemma AliasPointer(m: seq<Byte>, at: nat, begin: nat)
    requires Labels(m, at, begin, INT8_OFFSET).Some? && m[at] == COMPRESSION
    ensures NameEnd(m, at, begin, INT8_OFFSET) == at + 2
    ensures AliasDecoded(m, at, at + 2) == Stopped(Spelled(m, at, begin), at + 2)
  {
    DecoderPointer(m, at, begin);
    var to := Offset(m, at);
    NamesAreDecoded(m, to, to, {to});
    hide Labels, Decoded;
    assert Spelled(m, to, to) + [] == Spelled(m, to, to);
  }

  lemma LabelSpelled(m: seq<Byte>, at: nat, begin: nat)
    requires Labels(m, at, begin, INT8_OFFSET).Some? && m[at] != 0 && m[at] != COMPRESSION
    ensures LabelAt(m, at) && Labels(m, at + 1 + m[at], begin, INT8_OFFSET).Some?
    ensures var next := at + 1 + m[at];
      NameEnd(m, at, begin, INT8_OFFSET) == (if m[next] == 0 then next + 1 else NameEnd(m, next, begin, INT8_OFFSET))
      && Spelled(m, at, begin) ==
        (if m[next] == 0 then m[at + 1..next] else m[at + 1..next] + [DOT] + Spelled(m, next, begin))
  {
    LabelsStep(m, at, begin);
    hide Labels;
    var piece := m[at + 1..at + 1 + m[at]];
    assert piece + [] + [] == piece;
  }

  /** On every name other than the root the inline loop agrees with the recursive decoder, and it stops at the end
      of the data. */
  lemma DecodersAgree(m: seq<Byte>, begin: nat, end: nat)
    requires AliasData(m, begin, end)
    ensures AliasDecoded(m, begin, end) == Stopped(Spelled(m, begin, begin), end)
    ensures Entered(m, begin) == Text(Spelled(m, begin, begin))
  {
    AliasNameDecoded(m, begin, begin, end);
    NamesAreDecoded(m, begin, begin, {begin});
  }

  /** On the root as data it does not stop at the end of the data with the empty name: it reads the byte behind it. */
  lemma RootDataOverread(m: seq<Byte>, begin: nat)
    requires begin < |m| && m[begin] == 0
    ensures AliasDecoded(m, begin, begin + 1) ==
      if begin + 1 >= |m| then Overread
      else if m[begin + 1] == 0 then Stopped([], begin + 2)
      else Stopped([DOT], begin + 1)
    ensures Entered(m, begin) == Text([])
  {
    assert m[begin + 1..begin + 1] == [];
  }

  /** A record with a pointer to a prior name as its owner, and for CNAME a name as its data, is read as such: these
      are the names that section 4.1.4 of RFC 1035 denotes, save for the '.' of a root tail. */
  lemma RecordNames(m: seq<Byte>, at: nat)
    requires at + 12 <= |m| && m[at] == COMPRESSION && PointerAt(m, at, at, INT8_OFFSET) && NameAt(m, m[at + 1])
    ensures OwnerAt(m, at) && Entered(m, m[at + 1]).text == Spelled(m, m[at + 1], m[at + 1])
    ensures Field(m, at + 2) == 5 && AliasData(m, at + 12, at + 12 + Field(m, at + 10)) ==>
      AliasAt(m, at) && RecordEnd(m, at) == at + 12 + Field(m, at + 10)
      && RecordAt(m, at) == Alias(Spelled(m, m[at + 1], m[at + 1]), Spelled(m, at + 12, at + 12))
  {
    DecoderPointer(m, at, at);
    var to: nat := m[at + 1];
    NamesAreDecoded(m, to, to, {to});
    hide Decoded, AliasDecoded, Spelled, Labels;
    if Field(m, at + 2) == 5 && AliasData(m, at + 12, at + 12 + Field(m, at + 10)) {
      DecodersAgree(m, at + 12, at + 12 + Field(m, at + 10));
    }
  }

  /** A record as the standard has it: the owner a pointer to a prior name, and either type A with four bytes of
      data, or type CNAME with a name other than the root that fills the data. */
  ghost predicate StandardOwner(m: seq<Byte>, at: nat) {
    at + 12 <= |m| && m[at] == COMPRESSION && PointerAt(m, at, at, INT8_OFFSET) && NameAt(m, m[at + 1])
  }

  ghost predicate StandardAddress(m: seq<Byte>, at: nat) {
    StandardOwner(m, at) && Field(m, at + 2) == 1 && Field(m, at + 10) == 4 && at + 16 <= |m|
  }

  ghost predicate StandardAlias(m: seq<Byte>, at: nat) {
    StandardOwner(m, at) && Field(m, at + 2) == 5 && AliasData(m, at + 12, at + 12 + Field(m, at + 10))
  }

  /** Where its data ends, and what it says. */
  ghost function StandardEnd(m: seq<Byte>, at: nat): (end: nat)
    requires StandardAddress(m, at) || StandardAlias(m, at)
    ensures at < end <= |m|
  {
    at + 12 + Field(m, at + 10)
  }

  ghost function StandardRecord(m: seq<Byte>, at: nat): Record
    requires StandardAddress(m, at) || StandardAlias(m, at)
  {
    var owner := Spelled(m, m[at + 1], m[at + 1]);
    if StandardAddress(m, at) then Address(owner, m[at + 12..at + 16])
    else Alias(owner, Spelled(m, at + 12, at + 12))
  }

  /** The records of a message from `at` on, each behind the data of the one before, or None when there is something
      else. */
  ghost function StandardAnswers(m: seq<Byte>, at: nat): Option<seq<Record>>
    requires at <= |m|
    decreases |m| - at
  {
    if at == |m| then Some([])
    else if StandardAddress(m, at) || StandardAlias(m, at) then
      var rest := StandardAnswers(m, StandardEnd(m, at));
      if rest.Some? then Some([StandardRecord(m, at)] + rest.value) else None
    else None
  }

  lemma StandardRecordIsRead(m: seq<Byte>, at: nat)
    requires StandardAddress(m, at) || StandardAlias(m, at)
    ensures AddressAt(m, at) || AliasAt(m, at)
    ensures RecordAt(m, at) == StandardRecord(m, at) && RecordEnd(m, at) == StandardEnd(m, at)
  {
    RecordNames(m, at);
  }

  /** Every message of standard records is read as these records. */
  lemma {:induction false} StandardAnswersAreRead(m: seq<Byte>, at: nat)
    requires at <= |m| && StandardAnswers(m, at).Some?
    ensures Answers(m, at) == StandardAnswers(m, at)
    decreases |m| - at
  {
    if at < |m| {
      StandardRecordIsRead(m, at);
      hide StandardAddress, StandardAlias, AddressAt, AliasAt, StandardRecord, RecordAt, StandardEnd, RecordEnd;
      StandardAnswersAreRead(m, StandardEnd(m, at));
    }
  }

  /** The loop of the CNAME branch. */
  method ReadAlias(m: seq<Byte>, begin: nat, end: nat) returns (r: AliasDecoding)
    requires begin <= |m|
    ensures r == AliasDecoded(m, begin, end)
  {
    var result: seq<Byte> := [];
    var iter: nat := begin;
    hide Decoded, AliasDecoded;
    NothingDecoded(AliasDecoded(m, begin, end));
    while iter != end
      invariant begin <= iter <= |m|
      invariant Behind(result, AliasDecoded(m, iter, end)) == AliasDecoded(m, begin, end)
      decreases |m| - iter
    {
      AliasStep(m, iter, end, result);
      if iter >= |m| {
        return Overread;
      }
      if m[iter] == COMPRESSION {
        iter := iter + 1;
        if iter >= |m| || ToInt8(m[iter]) < 0 {
          return Overread;
        }
        var decoding := Entered(m, ToInt8(m[iter]));
        if !decoding.Text? {
          return if decoding.Loops? then Endless else Overread;
        }
        var name := NameFromPointer(m, ToInt8(m[iter]), {ToInt8(m[iter])});
        result := result + name;
        iter := iter + 1;
        continue;
      }
      var length: nat := m[iter];
      iter := iter + 1;
      if iter + length >= |m| {
        return Overread;
      }
      result := result + m[iter..iter + length];
      iter := iter + length;
      if m[iter] != 0 {
        result := result + [DOT];
      } else {
        return Stopped(result, iter + 1);
      }
    }
    AliasStep(m, iter, end, result);
    r := Stopped(result, iter);
  }

  lemma NothingDecoded(r: AliasDecoding)
    ensures Behind([], r) == r
  {
    if r.Stopped? {
      assert [] + r.text == r.text;
    }
  }

  lemma AliasStep(m: seq<Byte>, at: nat, end: nat, before: seq<Byte>)
    ensures var all := Behind(before, AliasDecoded(m, at, end));
      if at == end then all == Stopped(before, at)
      else if at >= |m| then all == Overread
      else if m[at] == COMPRESSION then
        if at + 1 >= |m| || ToInt8(m[at + 1]) < 0 then all == Overread
        else
          match Entered(m, m[at + 1])
          case Text(name) => all == Behind(before + name, AliasDecoded(m, at + 2, end))
          case Loops => all == Endless
          case Outside => all == Overread
      else
        var next := at + 1 + m[at];
        if next >= |m| then all == Overread
        else if m[next] == 0 then all == Stopped(before + m[at + 1..next], next + 1)
        else all == Behind(before + m[at + 1..next] + [DOT], AliasDecoded(m, next, end))
  {
    hide Decoded;
    assert before + [] == before;
    if at < |m| && at != end {
      if m[at] == COMPRESSION {
        if at + 1 < |m| && ToInt8(m[at + 1]) >= 0 && Entered(m, m[at + 1]).Text? {
          BehindTwice(before, Entered(m, m[at + 1]).text, AliasDecoded(m, at + 2, end));
        }
      } else if at + 1 + m[at] < |m| {
        var next := at + 1 + m[at];
        BehindTwice(before, m[at + 1..next] + [DOT], AliasDecoded(m, next, end));
        Associative(before, m[at + 1..next], [DOT]);
      }
    }
  }

  lemma BehindTwice(a: seq<Byte>, b: seq<Byte>, r: AliasDecoding)
    ensures Behind(a, Behind(b, r)) == Behind(a + b, r)
  {
    if r.Stopped? {
      Associative(a, b, r.text);
    }
  }

  /** The records left begin with the one at `at`. */
  lemma FirstRecord(m: seq<Byte>, at: nat, left: seq<Record>, noted: seq<seq<Byte>>, ips: seq<Ipv4>)
    requires at <= |m| && left != [] && Readable(m, at).0 == left && Names(noted, left).Some?
    ensures (AddressAt(m, at) || AliasAt(m, at)) && left[0] == RecordAt(m, at)
    ensures Readable(m, RecordEnd(m, at)) == (left[1..], Readable(m, at).1)
    ensures var owned := AfterOwner(noted, left[0].owner);
      if left[0].Address? then
        Names(noted, left) == Names(owned, left[1..]) && ips + Ips(left) == ips + [left[0].ip] + Ips(left[1..])
      else
        owned != [] && Names(noted, left) == Names(Push(owned, left[0].target), left[1..])
        && ips + Ips(left) == ips + Ips(left[1..])
    ensures AddressAt(m, at) <==> left[0].Address?
  {
    FirstReadable(m, at, left);
    hide Readable, AddressAt, AliasAt, RecordAt, RecordEnd;
    NamesAndIps(left, noted, ips);
  }

  lemma FirstReadable(m: seq<Byte>, at: nat, left: seq<Record>)
    requires at <= |m| && left != [] && Readable(m, at).0 == left
    ensures (AddressAt(m, at) || AliasAt(m, at)) && left[0] == RecordAt(m, at)
    ensures Readable(m, RecordEnd(m, at)) == (left[1..], Readable(m, at).1)
    ensures AddressAt(m, at) <==> left[0].Address?
  {
    var first := RecordAt(m, at);
    assert AddressAt(m, at) <==> first.Address?;
    hide AddressAt, AliasAt, RecordAt, RecordEnd;
    assert left == [first] + Readable(m, RecordEnd(m, at)).0;
  }

  lemma NamesAndIps(left: seq<Record>, noted: seq<seq<Byte>>, ips: seq<Ipv4>)
    requires left != [] && Names(noted, left).Some?
    ensures var owned := AfterOwner(noted, left[0].owner);
      if left[0].Address? then
        Names(noted, left) == Names(owned, left[1..]) && ips + Ips(left) == ips + [left[0].ip] + Ips(left[1..])
      else
        owned != [] && Names(noted, left) == Names(Push(owned, left[0].target), left[1..])
        && ips + Ips(left) == ips + Ips(left[1..])
  {
    var rest := left[1..];
    hide AfterOwner, Push;
    assert Ips(left) == (if left[0].Address? then [left[0].ip] else []) + Ips(rest);
    if left[0].Address? {
      assert ips + ([left[0].ip] + Ips(rest)) == ips + [left[0].ip] + Ips(rest);
    } else {
      assert [] + Ips(rest) == Ips(rest);
    }
  }

  /** Without records left the reading stops where it is; at the end of the message there are none. */
  lemma NothingReadable(m: seq<Byte>, at: nat)
    requires at <= |m|
    ensures Readable(m, at).0 == [] ==> Readable(m, at).1 == at
    ensures at == |m| || UnsupportedAt(m, at) ==> Readable(m, at) == ([], at)
    ensures Ips([]) == [] && !UnsupportedAt(m, |m|)
  {
  }

  /** A header to be read on from: it is there, has the id as it stands in memory, and the return code zero. */
  predicate GoodHeader(data: seq<Byte>, id: Uint16) {
    |data| >= 12 && data[..2] == Memory16(id) && data[3] % 16 == 0
  }

  lemma IdInMemory(data: seq<Byte>, id: Uint16)
    requires |data| >= 2
    ensures Read16(data[0], data[1]) == id <==> data[..2] == Memory16(id)
  {
    Memory16Inverse(id, data[0], data[1]);
    assert data[..2] == [data[0], data[1]];
  }

  class DnsResponse {
    const m_raw_data: seq<Byte>
    const m_id: Uint16
    var m_aliases: seq<seq<Byte>>
    var m_ipv4s: seq<Ipv4>
    var m_error: DnsError
    /** Set where the source reads outside of the message, looks at the last alias before there is one, or never
        comes back from a pointer. */
    var m_undefined: bool

    /** DnsResponse(std::vector<std::byte>, uint16_t). */
    constructor (data: seq<Byte>, id: Uint16)
      ensures m_raw_data == data && m_id == id
      ensures m_error == IncorrectResponseSize <==> |data| < 12
      ensures m_error == ResponseIdMismatch <==> |data| >= 12 && data[..2] != Memory16(id)
      ensures |data| >= 12 && data[..2] == Memory16(id) && data[3] % 16 != 0 ==>
        m_error == if data[3] % 16 <= 8 then Rcode(data[3] % 16) else UnknownError
      ensures GoodHeader(data, id) <==> m_error == Success || m_error == ResponseTypeNotSupported
      ensures !GoodHeader(data, id) ==> !m_undefined && m_aliases == [] && m_ipv4s == []
      ensures GoodHeader(data, id) && QuestionAt(data, HEADER_SIZE).Some? ==>
        var rs := Answers(data, QuestionAt(data, HEADER_SIZE).value.next);
        rs.Some? && Names([], rs.value).Some? ==>
          m_error == Success && !m_undefined
          && m_ipv4s == Ips(rs.value) && Some(m_aliases) == Names([], rs.value)
      // A record of another type ends it with an error, but what has been read before is kept.
      ensures GoodHeader(data, id) && QuestionAt(data, HEADER_SIZE).Some? ==>
        var (rs, end) := Readable(data, QuestionAt(data, HEADER_SIZE).value.next);
        Names([], rs).Some? && UnsupportedAt(data, end) ==>
          m_error == ResponseTypeNotSupported && !m_undefined && m_ipv4s == Ips(rs)
          && m_aliases == AfterOwner(Names([], rs).value, Entered(data, data[end + 1]).text)
    {
      hide Answers, Readable, Names, Ips, UnsupportedAt, QuestionAt, AfterOwner;
      m_raw_data, m_id := data, id;
      m_aliases, m_ipv4s, m_error, m_undefined := [], [], Success, false;
      new;
      var good := CheckHeader();
      if !good {
        return;
      }
      var question := ParseQuestion(m_raw_data, HEADER_SIZE);
      if question.None? {
        m_undefined := true;
        return;
      }
      AnswersAreReadable(m_raw_data, question.value.next);
      ReadAnswers(question.value.next);
    }

    /** The size, the id and the return code of the header. */
    method CheckHeader() returns (good: bool)
      requires m_error == Success
      modifies this`m_error
      ensures good == GoodHeader(m_raw_data, m_id)
      ensures m_error ==
        if |m_raw_data| < 12 then IncorrectResponseSize
        else if m_raw_data[..2] != Memory16(m_id) then ResponseIdMismatch
        else if m_raw_data[3] % 16 == 0 then Success
        else if m_raw_data[3] % 16 <= 8 then Rcode(m_raw_data[3] % 16)
        else UnknownError
    {
      if |m_raw_data| < HEADER_SIZE {
        m_error := IncorrectResponseSize;
        return false;
      }
      IdInMemory(m_raw_data, m_id);
      hide Memory16, Read16, Swap16;
      if Read16(m_raw_data[0], m_raw_data[1]) != m_id {
        m_error := ResponseIdMismatch;
        return false;
      }
      FieldInHostOrder(m_raw_data, 2);
      var returnCode := Swap16(Read16(m_raw_data[2], m_raw_data[3]));
      var error := returnCode % 16;
      assert error == m_raw_data[3] % 16;
      if error != 0 {
        m_error := if error < 9 then Rcode(error) else UnknownError;
        return false;
      }
      return true;
    }

    method ReadAnswers(begin: nat)
      requires begin <= |m_raw_data| && m_error == Success && !m_undefined && m_aliases == [] && m_ipv4s == []
      modifies this
      ensures var (rs, end) := Readable(m_raw_data, begin);
        Names([], rs).Some? && end == |m_raw_data| ==>
          m_error == Success && !m_undefined && m_ipv4s == Ips(rs) && Some(m_aliases) == Names([], rs)
      ensures var (rs, end) := Readable(m_raw_data, begin);
        Names([], rs).Some? && UnsupportedAt(m_raw_data, end) ==>
          m_error == ResponseTypeNotSupported && !m_undefined && m_ipv4s == Ips(rs)
          && m_aliases == AfterOwner(Names([], rs).value, Entered(m_raw_data, m_raw_data[end + 1]).text)
      ensures m_error == Success || m_error == ResponseTypeNotSupported
    {
      hide AddressAt, AliasAt, UnsupportedAt, OwnerAt, RecordAt, RecordEnd, Readable, Push, AfterOwner;
      ghost var all, end := Readable(m_raw_data, begin).0, Readable(m_raw_data, begin).1;
      ghost var good := Names([], all).Some? && (end == |m_raw_data| || UnsupportedAt(m_raw_data, end));
      ghost var left := all;
      var iter: nat := begin;
      while iter != |m_raw_data|
        invariant begin <= iter <= |m_raw_data| && m_error == Success
        invariant good ==> !m_undefined && Readable(m_raw_data, iter) == (left, end)
        invariant good ==> m_ipv4s + Ips(left) == Ips(all)
        invariant good ==> Names(m_aliases, left) == Names([], all)
        decreases |m_raw_data| - iter
      {
        NothingReadable(m_raw_data, iter);
        if good && left != [] {
          FirstRecord(m_raw_data, iter, left, m_aliases, m_ipv4s);
        }
        var next := ReadRecord(iter);
        if next.None? {
          return;
        }
        iter := next.value;
        left := if left != [] then left[1..] else left;
      }
      NothingReadable(m_raw_data, iter);
    }

    /** One round of the loop; None where it returns. */
    method ReadRecord(at: nat) returns (next: Option<nat>)
      requires at < |m_raw_data|
      modifies this
      ensures next.Some? ==> at < next.value <= |m_raw_data|
      ensures m_error == old(m_error) || (next.None? && m_error == ResponseTypeNotSupported)
      ensures AddressAt(m_raw_data, at) ==>
        var r := RecordAt(m_raw_data, at);
        next == Some(RecordEnd(m_raw_data, at)) && m_ipv4s == old(m_ipv4s) + [r.ip]
        && m_aliases == AfterOwner(old(m_aliases), r.owner)
        && m_error == old(m_error) && m_undefined == old(m_undefined)
      ensures UnsupportedAt(m_raw_data, at) ==>
        next.None? && m_error == ResponseTypeNotSupported && m_undefined == old(m_undefined) && m_ipv4s == old(m_ipv4s)
        && m_aliases == AfterOwner(old(m_aliases), Entered(m_raw_data, m_raw_data[at + 1]).text)
      ensures AliasAt(m_raw_data, at) ==>
        var r := RecordAt(m_raw_data, at);
        var owned := AfterOwner(old(m_aliases), r.owner);
        owned != [] ==>
          next == Some(RecordEnd(m_raw_data, at)) && m_ipv4s == old(m_ipv4s)
          && m_aliases == Push(owned, r.target)
          && m_error == old(m_error) && m_undefined == old(m_undefined)
    {
      hide Decoded, AliasDecoded;
      var afterOwner := ReadOwner(at);
      if afterOwner.None? {
        return None;
      }
      var iter := afterOwner.value;
      if iter + 10 > |m_raw_data| {
        m_undefined := true;
        return None;
      }
      FieldInHostOrder(m_raw_data, iter);
      FieldInHostOrder(m_raw_data, iter + 8);
      var responseType := Swap16(Read16(m_raw_data[iter], m_raw_data[iter + 1]));
      var dataLength := Swap16(Read16(m_raw_data[iter + 8], m_raw_data[iter + 9]));
      next := ReadData(responseType, dataLength, iter + 10);
    }

    /** The owner's name, when a pointer stands there. */
    method ReadOwner(at: nat) returns (next: Option<nat>)
      requires at < |m_raw_data|
      modifies this`m_aliases, this`m_undefined
      ensures next.Some? ==> at <= next.value <= |m_raw_data| && m_undefined == old(m_undefined)
      ensures OwnerAt(m_raw_data, at) ==>
        var owner := m_raw_data[at + 1];
        next == Some(at + 2) && m_aliases == AfterOwner(old(m_aliases), Entered(m_raw_data, owner).text)
    {
      var iter := at;
      if m_raw_data[iter] == COMPRESSION {
        iter := iter + 1;
        if iter >= |m_raw_data| || ToInt8(m_raw_data[iter]) < 0 || !Entered(m_raw_data, m_raw_data[iter]).Text? {
          m_undefined := true;
          return None;
        }
        var name := NameFromPointer(m_raw_data, ToInt8(m_raw_data[iter]), {ToInt8(m_raw_data[iter])});
        if (m_aliases == [] || name != m_aliases[|m_aliases| - 1]) && name != [] {
          m_aliases := m_aliases + [name];
        }
        iter := iter + 1;
      }
      return Some(iter);
    }

    /** The data of a record, by its type. */
    method ReadData(responseType: Uint16, dataLength: Uint16, at: nat) returns (next: Option<nat>)
      requires at <= |m_raw_data|
      modifies this
      ensures next.Some? ==> at <= next.value <= |m_raw_data|
      ensures responseType == 1 && at + 4 <= |m_raw_data| ==>
        next == Some(at + 4) && m_ipv4s == old(m_ipv4s) + [m_raw_data[at..at + 4]] && m_aliases == old(m_aliases)
        && m_error == old(m_error) && m_undefined == old(m_undefined)
      ensures responseType == 5 && AliasDecoded(m_raw_data, at, at + dataLength).Stopped? && old(m_aliases) != [] ==>
        var alias := AliasDecoded(m_raw_data, at, at + dataLength);
        next == Some(alias.next) && m_ipv4s == old(m_ipv4s)
        && m_aliases == Push(old(m_aliases), alias.text)
        && m_error == old(m_error) && m_undefined == old(m_undefined)
      ensures responseType == 1 || responseType == 5 ==> m_error == old(m_error)
      ensures responseType != 1 && responseType != 5 ==>
        next.None? && m_error == ResponseTypeNotSupported && m_undefined == old(m_undefined)
        && m_ipv4s == old(m_ipv4s) && m_aliases == old(m_aliases)
    {
      if responseType == 1 {
        if at + 4 > |m_raw_data| {
          m_undefined := true;
          return None;
        }
        hide FromInteger, Read32, AliasDecoded;
        var b: Ipv4 := m_raw_data[at..at + 4];
        FromMemory(b);
        m_ipv4s := m_ipv4s + [FromInteger(Read32(b[0], b[1], b[2], b[3]), Big)];
        return Some(at + 4);
      } else if responseType == 5 {
        var end := at + dataLength;
        var alias := ReadAlias(m_raw_data, at, end);
        if !alias.Stopped? || m_aliases == [] {
          m_undefined := true;
          return None;
        }
        if m_aliases[|m_aliases| - 1] != alias.text {
          m_aliases := m_aliases + [alias.text];
        }
        return Some(alias.next);
      } else {
        m_error := ResponseTypeNotSupported;
        return None;
      }
    }
  }

  /** A whole query, taken as a response to itself, has no error and no answers. */
  lemma QueryIsAnEmptyReply(id: Uint16, host: seq<Byte>)
    requires AllShort(Split(host, DOT)) && NoneEmpty(Split(host, DOT))
    ensures var m := Query(id, host);
      GoodHeader(m, id) && QuestionAt(m, HEADER_SIZE).Some?
      && Answers(m, QuestionAt(m, HEADER_SIZE).value.next) == Some([])
      && Ips([]) == [] && Names([], []) == Some([])
  {
    NonEmptyLabelsReadBack(id, host);
    QueryHeader(id, host);
    hide Query, GoodHeader, QuestionAt, NoneEmpty, AllShort, Split;
  }

  lemma QueryHeader(id: Uint16, host: seq<Byte>)
    requires AllShort(Split(host, DOT))
    ensures GoodHeader(Query(id, host), id)
  {
    var m := Query(id, host);
    QueryOnTheWire(id, host);
    hide Query, AllShort, Split;
    assert m[..2] == m[..12][..2] && m[3] == m[..12][3];
  }

  /** A query taken as a reply to another one is refused for its id. */
  lemma AnotherIdIsRefused(id: Uint16, other: Uint16, host: seq<Byte>)
    requires AllShort(Split(host, DOT))
    ensures var m := Query(id, host); |m| >= 12 && (m[..2] != Memory16(other) <==> id != other)
  {
    var m := Query(id, host);
    QueryOnTheWire(id, host);
    assert m[..2] == m[..12][..2] == Memory16(id);
    IdInMemory(m, id);
    IdInMemory(m, other);
  }

  /** Each record is owned by the name that the aliases before it lead to. */
  predicate Chain(owner: seq<Byte>, rs: seq<Record>)
    decreases |rs|
  {
    rs == [] || (rs[0].owner == owner && Chain(if rs[0].Alias? then rs[0].target else owner, rs[1..]))
  }

  function Targets(rs: seq<Record>): seq<seq<Byte>> {
    if rs == [] then [] else (if rs[0].Alias? then [rs[0].target] else []) + Targets(rs[1..])
  }

  /** No name follows itself. */
  predicate NoRepeat(first: seq<Byte>, names: seq<seq<Byte>>)
    decreases |names|
  {
    names == [] || (names[0] != first && NoRepeat(names[0], names[1..]))
  }

  lemma {:induction false} ChainNames(noted: seq<seq<Byte>>, rs: seq<Record>)
    requires noted != [] && Chain(noted[|noted| - 1], rs)
    ensures Names(noted, rs).Some?
    ensures |Names(noted, rs).value| <= |noted| + |Targets(rs)|
    ensures Names(noted, rs).value == noted + Targets(rs) <==> NoRepeat(noted[|noted| - 1], Targets(rs))
    decreases |rs|
  {
    if rs == [] {
      assert noted + [] == noted;
    } else {
      var owner, rest := noted[|noted| - 1], rs[1..];
      assert AfterOwner(noted, rs[0].owner) == noted;
      if rs[0].Address? {
        ChainNames(noted, rest);
        assert Targets(rs) == [] + Targets(rest) == Targets(rest);
      } else {
        var target := rs[0].target;
        ChainNames(Push(noted, target), rest);
        assert Names(noted, rs) == Names(Push(noted, target), rest);
        assert Targets(rs) == [target] + Targets(rest);
        PushedOrNot(noted, target, Targets(rest), Names(noted, rs).value);
      }
    }
  }

  lemma PushedOrNot(noted: seq<seq<Byte>>, target: seq<Byte>, targets: seq<seq<Byte>>, names: seq<seq<Byte>>)
    requires noted != [] && var pushed := Push(noted, target);
      |names| <= |pushed| + |targets| && (names == pushed + targets <==> NoRepeat(target, targets))
    ensures |names| <= |noted| + |[target] + targets|
    ensures names == noted + ([target] + targets) <==> NoRepeat(noted[|noted| - 1], [target] + targets)
  {
    assert ([target] + targets)[1..] == targets;
    assert noted + [target] + targets == noted + ([target] + targets);
  }

  /** A CNAME chain from the host gives the host and every target in order, exactly when no name follows itself. */
  lemma ChainAliasesIff(host: seq<Byte>, rs: seq<Record>)
    requires host != [] && rs != [] && Chain(host, rs)
    ensures Names([], rs) == Some([host] + Targets(rs)) <==> NoRepeat(host, Targets(rs))
  {
    ChainNames([host], rs);
    assert AfterOwner([], host) == [host] == AfterOwner([host], host);
    assert Names([], rs) == Names([host], rs);
  }

  /** A standard response to a query for a host, a CNAME chain from the host: it is consumed to its end, the
      addresses are those of its A records, in order, and the aliases are the host and every target, in order, when
      no name follows itself. The constructor gives just these. */
  lemma StandardChainIsResolved(data: seq<Byte>, id: Uint16, host: seq<Byte>)
    requires GoodHeader(data, id) && QuestionAt(data, HEADER_SIZE).Some?
    requires var rs := StandardAnswers(data, QuestionAt(data, HEADER_SIZE).value.next);
      rs.Some? && rs.value != [] && host != [] && Chain(host, rs.value)
    ensures var at := QuestionAt(data, HEADER_SIZE).value.next;
      var rs := StandardAnswers(data, at).value;
      Answers(data, at) == Some(rs) && Names([], rs).Some?
      && (Names([], rs) == Some([host] + Targets(rs)) <==> NoRepeat(host, Targets(rs)))
  {
    var at := QuestionAt(data, HEADER_SIZE).value.next;
    var rs := StandardAnswers(data, at).value;
    StandardAnswersAreRead(data, at);
    hide StandardAnswers, Answers, QuestionAt;
    ChainAliasesIff(host, rs);
    ChainIsNoted(host, rs);
  }

  lemma ChainIsNoted(host: seq<Byte>, rs: seq<Record>)
    requires host != [] && rs != [] && Chain(host, rs)
    ensures Names([], rs).Some?
  {
    ChainNames([host], rs);
    assert AfterOwner([], host) == [host] == AfterOwner([host], host);
    assert Names([], rs) == Names([host], rs);
  }

  /** Consecutive names noted always differ, and owners other than the root are noted; so the names of addresses
      alone are never empty. */
  predicate NoNeighbours(names: seq<seq<Byte>>) {
    forall i :: 0 < i < |names| ==> names[i - 1] != names[i]
  }

  lemma {:induction false} NamesDiffer(noted: seq<seq<Byte>>, rs: seq<Record>)
    requires NoNeighbours(noted) && Names(noted, rs).Some?
    ensures NoNeighbours(Names(noted, rs).value) && noted <= Names(noted, rs).value
    decreases |rs|
  {
    if rs != [] {
      var owned := AfterOwner(noted, rs[0].owner);
      NamesDiffer(if rs[0].Address? then owned else Push(owned, rs[0].target), rs[1..]);
    }
  }

  lemma {:induction false} NamesOfAddresses(noted: seq<seq<Byte>>, rs: seq<Record>)
    requires (forall i :: 0 <= i < |rs| ==> rs[i].Address?) && [] !in noted
    ensures Names(noted, rs).Some? && [] !in Names(noted, rs).value
    ensures forall name :: name in Names(noted, rs).value <==> name in noted || (name != [] && Owns(rs, name))
    decreases |rs|
  {
    if rs != [] {
      NamesOfAddresses(AfterOwner(noted, rs[0].owner), rs[1..]);
    }
  }

  predicate Owns(rs: seq<Record>, name: seq<Byte>) {
    rs != [] && (rs[0].owner == name || Owns(rs[1..], name))
  }

  // The simplest response with an answer: the query again, and an address owned by a pointer to its host.

  function AnswerBytes(ttl: seq<Byte>, ip: Ipv4): seq<Byte> {
    [COMPRESSION, HEADER_SIZE, 0, 1, 0, 1] + ttl + [0, 4] + ip
  }

  predicate NoneLong(labels: Name) {
    forall i :: 0 <= i < |labels| ==> |labels[i]| <= 63
  }

  /** A plain name with labels of the standard's lengths is a name, spelled with dots. */
  lemma {:induction false} PlainIsName(m: seq<Byte>, at: nat, start: nat)
    requires PlainName(m, at).Some? && NoneLong(PlainName(m, at).value)
    ensures Labels(m, at, start, INT8_OFFSET) == PlainName(m, at)
    ensures Spelled(m, at, start) == Dotted(PlainName(m, at).value)
    decreases |m| - at
  {
    if m[at] != 0 {
      var next := at + 1 + m[at];
      var head, rest := m[at + 1..next], PlainName(m, next).value;
      var all := PlainName(m, at).value;
      assert all == [head] + rest && all[0] == head;
      assert forall i :: 0 <= i < |rest| ==> all[i + 1] == rest[i];
      PlainIsName(m, next, start);
      DottedCons(head, rest);
      assert head + [] + [] == head;
    }
  }

  lemma {:induction false} PlainNameInFront(m: seq<Byte>, more: seq<Byte>, at: nat)
    requires PlainName(m, at).Some?
    ensures PlainName(m + more, at) == PlainName(m, at) && PlainEnd(m + more, at) == PlainEnd(m, at)
    decreases |m| - at
  {
    if m[at] != 0 {
      var next := at + 1 + m[at];
      assert (m + more)[at + 1..next] == m[at + 1..next];
      PlainNameInFront(m, more, next);
    }
  }

  /** Its address is resolved, under the name of the host. */
  lemma AddressIsResolved(id: Uint16, host: seq<Byte>, ttl: seq<Byte>, ip: Ipv4)
    requires AllShort(Split(host, DOT)) && NoneEmpty(Split(host, DOT)) && NoneLong(Split(host, DOT)) && |ttl| == 4
    ensures var m, at := Query(id, host) + AnswerBytes(ttl, ip), |Query(id, host)|;
      GoodHeader(m, id) && QuestionAt(m, HEADER_SIZE) == Some(Question(host, 1, 1, at))
      && StandardAnswers(m, at) == Some([Address(host, ip)])
      && Ips([Address(host, ip)]) == [ip] && (host != [] ==> Names([], [Address(host, ip)]) == Some([host]))
  {
    var q, answer := Query(id, host), AnswerBytes(ttl, ip);
    var m, at := q + answer, |q|;
    NonEmptyLabelsReadBack(id, host);
    QuestionInFront(q, answer, host);
    QueryHeader(id, host);
    HeaderInFront(q, answer, id);
    hide Query, AllShort, NoneEmpty, Split;
    PlainNameInFront(q, answer, HEADER_SIZE);
    PlainIsName(m, HEADER_SIZE, HEADER_SIZE);
    OneAnswer(q, ttl, ip, host);
    OneName(host, ip);
  }

  lemma QuestionInFront(q: seq<Byte>, more: seq<Byte>, host: seq<Byte>)
    requires QuestionAt(q, HEADER_SIZE) == Some(Question(host, 1, 1, |q|))
    ensures QuestionAt(q + more, HEADER_SIZE) == QuestionAt(q, HEADER_SIZE)
  {
    PlainNameInFront(q, more, HEADER_SIZE);
  }

  lemma HeaderInFront(q: seq<Byte>, more: seq<Byte>, id: Uint16)
    requires GoodHeader(q, id)
    ensures GoodHeader(q + more, id)
  {
    assert forall i :: 0 <= i < 4 ==> (q + more)[i] == q[i];
  }

  lemma OneAnswer(q: seq<Byte>, ttl: seq<Byte>, ip: Ipv4, host: seq<Byte>)
    requires |ttl| == 4 && |q| > HEADER_SIZE && NameAt(q + AnswerBytes(ttl, ip), HEADER_SIZE)
    requires Spelled(q + AnswerBytes(ttl, ip), HEADER_SIZE, HEADER_SIZE) == host
    ensures StandardAnswers(q + AnswerBytes(ttl, ip), |q|) == Some([Address(host, ip)])
  {
    var m, at := q + AnswerBytes(ttl, ip), |q|;
    hide Labels, Spelled, NameAt;
    assert |m| == at + 16;
    assert m[at] == COMPRESSION && m[at + 1] == HEADER_SIZE;
    assert m[at + 2] == 0 && m[at + 3] == 1 && m[at + 10] == 0 && m[at + 11] == 4;
    assert m[at + 12..at + 16] == ip;
    assert PointerAt(m, at, at, INT8_OFFSET) && Offset(m, at) == HEADER_SIZE;
    assert StandardAddress(m, at) && StandardRecord(m, at) == Address(host, ip);
    assert StandardEnd(m, at) == |m|;
    assert StandardAnswers(m, |m|) == Some([]);
    assert [Address(host, ip)] + [] == [Address(host, ip)];
  }

  lemma OneName(host: seq<Byte>, ip: Ipv4)
    ensures var rs := [Address(host, ip)];
      Ips(rs) == [ip] && (host != [] ==> Names([], rs) == Some([host]))
  {
    var rs := [Address(host, ip)];
    assert rs[1..] == [] && [ip] + [] == [ip] && [] + [host] == [host];
  }
}
