/** Domain names on the wire: what section 4.1.4 of RFC 1035 makes of them, and the decoders of dns_response.cpp. */
module DnsNames {
  import opened Text
  import opened Bytes

  type Label = seq<Byte>
  type Name = seq<Label>

  const DOT: Byte := 46
  const COMPRESSION: Byte := 192

  /** The largest offset a pointer can hold, and the largest one that survives a cast to int8_t. */
  const ANY_OFFSET := 0x3FFF
  const INT8_OFFSET := 127

  /** A name in its usual spelling. */
  function Dotted(name: Name): seq<Byte> {
    Join(name, DOT)
  }

  function Cons(head: Label, rest: Option<Name>): Option<Name> {
    if rest.Some? then Some([head] + rest.value) else None
  }

  /** Where a pointer points. */
  function Offset(m: seq<Byte>, at: nat): (offset: nat)
    requires at + 1 < |m| && m[at] >= COMPRESSION
    ensures offset <= ANY_OFFSET
  {
    (m[at] - COMPRESSION) * 256 + m[at + 1]
  }

  /** A label and the position behind it. */
  predicate LabelAt(m: seq<Byte>, at: nat) {
    at < |m| && 0 < m[at] <= 63 && at + 1 + m[at] <= |m|
  }

  /** A pointer to somewhere before the segment it ends, at an offset up to `limit`. */
  predicate PointerAt(m: seq<Byte>, at: nat, start: nat, limit: nat) {
    at + 1 < |m| && m[at] >= COMPRESSION && Offset(m, at) < start && Offset(m, at) <= limit
  }

  /** The name at `at`, in a segment that begins at `start`: labels, ended by a zero byte or by a pointer to a
      prior name. None when the bytes are no such name. */
  function Labels(m: seq<Byte>, at: nat, start: nat, limit: nat): (name: Option<Name>)
    ensures name.Some? ==> at < |m|
    decreases start, |m| - at
  {
    if at >= |m| then None
    else if m[at] == 0 then Some([])
    else if PointerAt(m, at, start, limit) then Labels(m, Offset(m, at), Offset(m, at), limit)
    else if LabelAt(m, at) then Cons(m[at + 1..at + 1 + m[at]], Labels(m, at + 1 + m[at], start, limit))
    else None
  }

  /** The position behind the name. */
  function NameEnd(m: seq<Byte>, at: nat, start: nat, limit: nat): (end: nat)
    requires Labels(m, at, start, limit).Some?
    ensures at < end <= |m|
    decreases |m| - at
  {
    if m[at] == 0 then at + 1
    else if PointerAt(m, at, start, limit) then at + 2
    else NameEnd(m, at + 1 + m[at], start, limit)
  }

  /** The name's last label is followed, through a pointer, by the root. */
  predicate RootTail(m: seq<Byte>, at: nat, start: nat, limit: nat)
    requires Labels(m, at, start, limit).Some?
    decreases start, |m| - at
  {
    if m[at] == 0 then false
    else if PointerAt(m, at, start, limit) then
      m[Offset(m, at)] == 0 || RootTail(m, Offset(m, at), Offset(m, at), limit)
    else RootTail(m, at + 1 + m[at], start, limit)
  }

  /** The text the decoders build. */
  function Spelled(m: seq<Byte>, at: nat, start: nat): seq<Byte>
    requires Labels(m, at, start, INT8_OFFSET).Some?
    decreases start, |m| - at
  {
    if m[at] == 0 then []
    else if PointerAt(m, at, start, INT8_OFFSET) then Spelled(m, Offset(m, at), Offset(m, at))
    else
      var next := at + 1 + m[at];
      m[at + 1..next] + (if m[next] == 0 then [] else [DOT]) + Spelled(m, next, start)
  }

  /** A name whose pointers all stay within int8_t is the same name without that restriction. */
  lemma {:induction false} NearNamesAreNames(m: seq<Byte>, at: nat, start: nat)
    requires Labels(m, at, start, INT8_OFFSET).Some?
    ensures Labels(m, at, start, ANY_OFFSET) == Labels(m, at, start, INT8_OFFSET)
    decreases start, |m| - at
  {
    if m[at] == 0 {
    } else if PointerAt(m, at, start, INT8_OFFSET) {
      NearNamesAreNames(m, Offset(m, at), Offset(m, at));
    } else {
      NearNamesAreNames(m, at + 1 + m[at], start);
    }
  }

  lemma DottedCons(head: Label, rest: Name)
    ensures Dotted([head] + rest) == if rest == [] then head else head + [DOT] + Dotted(rest)
  {
    assert ([head] + rest)[1..] == rest;
  }

  /** The decoded text is the dotted name, with one '.' too many exactly when a label is followed, through a
      pointer, by the root. */
  lemma {:induction false} SpelledIsDotted(m: seq<Byte>, at: nat, start: nat)
    requires Labels(m, at, start, INT8_OFFSET).Some?
    ensures var name := Labels(m, at, start, INT8_OFFSET).value;
      Spelled(m, at, start) ==
        Dotted(name) + (if name != [] && RootTail(m, at, start, INT8_OFFSET) then [DOT] else [])
    decreases start, |m| - at
  {
    var name := Labels(m, at, start, INT8_OFFSET).value;
    if m[at] == 0 {
    } else if PointerAt(m, at, start, INT8_OFFSET) {
      var to := Offset(m, at);
      SpelledIsDotted(m, to, to);
      if m[to] == 0 {
        assert name == [];
      }
    } else {
      var next := at + 1 + m[at];
      var head, rest := m[at + 1..next], Labels(m, next, start, INT8_OFFSET).value;
      SpelledIsDotted(m, next, start);
      DottedCons(head, rest);
      if m[next] != 0 && rest == [] {
        EmptyThroughPointer(m, next, start);
      }
    }
  }

  lemma {:induction false} EmptyThroughPointer(m: seq<Byte>, at: nat, start: nat)
    requires Labels(m, at, start, INT8_OFFSET) == Some([]) && m[at] != 0
    ensures RootTail(m, at, start, INT8_OFFSET)
    decreases start
  {
    if PointerAt(m, at, start, INT8_OFFSET) && m[Offset(m, at)] != 0 {
      EmptyThroughPointer(m, Offset(m, at), Offset(m, at));
    }
  }

  /** So it is the name that the standard denotes exactly in the other cases. */
  lemma DecodedNameIff(m: seq<Byte>, at: nat)
    requires Labels(m, at, at, INT8_OFFSET).Some?
    ensures Labels(m, at, at, ANY_OFFSET).Some?
    ensures var name := Labels(m, at, at, ANY_OFFSET).value;
      Spelled(m, at, at) == Dotted(name) <==> name == [] || !RootTail(m, at, at, INT8_OFFSET)
  {
    NearNamesAreNames(m, at, at);
    SpelledIsDotted(m, at, at);
  }

  /** static_cast<int8_t>. */
  function ToInt8(b: Byte): (r: int)
    ensures -128 <= r <= 127 && (r - b) % 256 == 0
  {
    if b <= INT8_OFFSET then b else b - 256
  }

  /** A pointer as the decoders take it: exactly the byte 192 and a byte read as int8_t. */
  lemma DecoderPointer(m: seq<Byte>, at: nat, start: nat)
    requires at + 1 < |m|
    ensures PointerAt(m, at, start, INT8_OFFSET) <==>
      m[at] == COMPRESSION && m[at + 1] == ToInt8(m[at + 1]) && ToInt8(m[at + 1]) < start
  {
  }

  /** What stands neither for the root nor for a pointer is a label. */
  lemma LabelsStep(m: seq<Byte>, at: nat, start: nat)
    requires Labels(m, at, start, INT8_OFFSET).Some? && m[at] != 0 && m[at] != COMPRESSION
    ensures !PointerAt(m, at, start, INT8_OFFSET) && LabelAt(m, at)
    ensures Labels(m, at + 1 + m[at], start, INT8_OFFSET).Some?
  {
  }

  lemma Reassociate(before: seq<Byte>, piece: seq<Byte>, dot: seq<Byte>, after: seq<Byte>)
    ensures before + (piece + dot + after) == before + piece + dot + after
    ensures before + piece + [] == before + piece
  {
  }

  // The decoder on any bytes.

  /** What nameFromPointer does: it returns a text, follows pointers for ever, or leaves the message. */
  datatype Decoding = Text(text: seq<Byte>) | Loops | Outside

  function Before(text: seq<Byte>, rest: Decoding): Decoding {
    if rest.Text? then Text(text + rest.text) else rest
  }

  /** The positions of a message of n bytes. */
  function Positions(n: nat): (ps: set<nat>)
    ensures forall i: nat :: i in ps <==> i < n
  {
    if n == 0 then {} else Positions(n - 1) + {n - 1}
  }

  /** Decoding from `at` when the segments that begin at the positions in `seen` have been entered. */
  function Decoded(m: seq<Byte>, at: nat, seen: set<nat>): Decoding
    decreases Positions(|m|) - seen, |m| - at
  {
    if at >= |m| then Outside
    else if m[at] == 0 then Text([])
    else if m[at] == COMPRESSION then
      if at + 1 >= |m| || ToInt8(m[at + 1]) < 0 then Outside
      else
        var to := m[at + 1];
        if to in seen then Loops
        else if to >= |m| then Outside
        else
          assert to in Positions(|m|) - seen;
          Decoded(m, to, seen + {to})
    else
      var next := at + 1 + m[at];
      if next >= |m| then Outside
      else Before(m[at + 1..next] + (if m[next] == 0 then [] else [DOT]), Decoded(m, next, seen))
  }

  /** The name that nameFromPointer starts at. */
  function Entered(m: seq<Byte>, at: nat): Decoding {
    Decoded(m, at, {at})
  }

  /** Where one round of the loop leads, a pointer or a label at a time. */
  datatype Progress = At(position: nat) | Ended | Left

  function Round(m: seq<Byte>, at: nat): Progress {
    if at >= |m| then Left
    else if m[at] == 0 then Ended
    else if m[at] == COMPRESSION then
      if at + 1 >= |m| || ToInt8(m[at + 1]) < 0 then Left else At(m[at + 1])
    else if at + 1 + m[at] >= |m| then Left
    else At(at + 1 + m[at])
  }

  function AfterRounds(m: seq<Byte>, at: nat, n: nat): Progress
    decreases n
  {
    if n == 0 then At(at)
    else
      match Round(m, at)
      case At(next) => AfterRounds(m, next, n - 1)
      case stop => stop
  }

  ghost predicate Reaches(m: seq<Byte>, a: nat, b: nat) {
    exists n: nat :: AfterRounds(m, a, n) == At(b)
  }

  lemma {:induction false} RoundsAdd(m: seq<Byte>, a: nat, b: nat, i: nat, j: nat)
    requires AfterRounds(m, a, i) == At(b)
    ensures AfterRounds(m, a, i + j) == AfterRounds(m, b, j)
    decreases i
  {
    if i > 0 {
      RoundsAdd(m, Round(m, a).position, b, i - 1, j);
    }
  }

  /** A run that has stopped stays where it stopped. */
  lemma {:induction false} StoppedStays(m: seq<Byte>, a: nat, i: nat, j: nat)
    requires !AfterRounds(m, a, i).At? && i <= j
    ensures AfterRounds(m, a, j) == AfterRounds(m, a, i)
    decreases i
  {
    if Round(m, a).At? {
      StoppedStays(m, Round(m, a).position, i - 1, j - 1);
    }
  }

  /** A position that comes back keeps coming back. */
  lemma {:induction false} CycleNeverStops(m: seq<Byte>, a: nat, period: nat, n: nat)
    requires period > 0 && AfterRounds(m, a, period) == At(a)
    ensures AfterRounds(m, a, n).At?
  {
    if n < period {
      if !AfterRounds(m, a, n).At? {
        StoppedStays(m, a, n, period);
      }
    } else {
      RoundsAdd(m, a, a, period, n - period);
      CycleNeverStops(m, a, period, n - period);
    }
  }

  lemma NeverStopsBefore(m: seq<Byte>, a: nat, b: nat, i: nat, n: nat)
    requires AfterRounds(m, a, i) == At(b) && forall k: nat :: AfterRounds(m, b, k).At?
    ensures AfterRounds(m, a, n).At?
  {
    hide AfterRounds;
    if n < i {
      if !AfterRounds(m, a, n).At? {
        StoppedStays(m, a, n, i);
      }
    } else {
      RoundsAdd(m, a, b, i, n - i);
    }
  }

  ghost predicate Stops(m: seq<Byte>, at: nat, how: Progress) {
    exists n: nat :: AfterRounds(m, at, n) == how
  }

  ghost predicate NeverStops(m: seq<Byte>, at: nat) {
    forall n: nat :: AfterRounds(m, at, n).At?
  }

  ghost predicate Behaves(m: seq<Byte>, at: nat, d: Decoding) {
    match d
    case Text(_) => Stops(m, at, Ended)
    case Loops => NeverStops(m, at)
    case Outside => Stops(m, at, Left)
  }

  lemma StopsEarlier(m: seq<Byte>, at: nat, next: nat, how: Progress)
    requires Round(m, at) == At(next) && Stops(m, next, how)
    ensures Stops(m, at, how)
  {
    var n: nat :| AfterRounds(m, next, n) == how;
    assert AfterRounds(m, at, n + 1) == how;
  }

  lemma BehavesEarlier(m: seq<Byte>, at: nat, next: nat, d: Decoding)
    requires Round(m, at) == At(next) && Behaves(m, next, d)
    ensures Behaves(m, at, d)
  {
    if d.Loops? {
      assert AfterRounds(m, at, 1) == AfterRounds(m, next, 0);
      forall n: nat ensures AfterRounds(m, at, n).At? {
        NeverStopsBefore(m, at, next, 1, n);
      }
    } else {
      StopsEarlier(m, at, next, if d.Text? then Ended else Left);
    }
  }

  lemma StillReached(m: seq<Byte>, s: nat, at: nat, next: nat)
    requires Reaches(m, s, at) && Round(m, at) == At(next)
    ensures Reaches(m, s, next)
  {
    var n: nat :| AfterRounds(m, s, n) == At(at);
    RoundsAdd(m, s, at, n, 1);
    assert AfterRounds(m, at, 1) == AfterRounds(m, next, 0);
    assert AfterRounds(m, s, n + 1) == At(next);
  }

  lemma ComesBack(m: seq<Byte>, at: nat, to: nat)
    requires Round(m, at) == At(to) && Reaches(m, to, at)
    ensures NeverStops(m, to)
  {
    var n: nat :| AfterRounds(m, to, n) == At(at);
    RoundsAdd(m, to, at, n, 1);
    assert AfterRounds(m, at, 1) == AfterRounds(m, to, 0);
    forall k: nat ensures AfterRounds(m, to, k).At? {
      CycleNeverStops(m, to, n + 1, k);
    }
  }

  lemma {:induction false} DecodedBehaves(m: seq<Byte>, at: nat, seen: set<nat>)
    requires forall s :: s in seen ==> Reaches(m, s, at)
    ensures Behaves(m, at, Decoded(m, at, seen))
    decreases Positions(|m|) - seen, |m| - at
  {
    match Round(m, at)
    case At(next) =>
      forall s | s in seen ensures Reaches(m, s, next) {
        StillReached(m, s, at, next);
      }
      if m[at] != COMPRESSION {
        DecodedBehaves(m, next, seen);
        BehavesEarlier(m, at, next, Decoded(m, next, seen));
      } else if next in seen {
        ComesBack(m, at, next);
        BehavesEarlier(m, at, next, Loops);
      } else if next < |m| {
        assert next in Positions(|m|) - seen;
        assert AfterRounds(m, next, 0) == At(next);
        DecodedBehaves(m, next, seen + {next});
        BehavesEarlier(m, at, next, Decoded(m, next, seen + {next}));
      } else {
        assert AfterRounds(m, next, 1) == Left;
        BehavesEarlier(m, at, next, Outside);
      }
    case Ended =>
      assert AfterRounds(m, at, 1) == Ended;
    case Left =>
      assert AfterRounds(m, at, 1) == Left;
  }

  lemma OneBehaviour(m: seq<Byte>, at: nat)
    ensures !(Stops(m, at, Ended) && Stops(m, at, Left))
    ensures !(NeverStops(m, at) && (Stops(m, at, Ended) || Stops(m, at, Left)))
  {
    if Stops(m, at, Ended) && Stops(m, at, Left) {
      var i: nat :| AfterRounds(m, at, i) == Ended;
      var j: nat :| AfterRounds(m, at, j) == Left;
      StoppedStays(m, at, if i < j then i else j, if i < j then j else i);
    }
  }

  /** The decoder ends exactly when it stays in the message and enters no segment twice; it goes on for ever exactly
      when it stays in the message and enters one again. */
  lemma DecoderEndsIff(m: seq<Byte>, at: nat)
    ensures Entered(m, at).Text? <==> Stops(m, at, Ended)
    ensures Entered(m, at).Loops? <==> NeverStops(m, at)
    ensures Entered(m, at).Outside? <==> Stops(m, at, Left)
  {
    assert AfterRounds(m, at, 0) == At(at);
    DecodedBehaves(m, at, {at});
    OneBehaviour(m, at);
  }

  /** A name whose pointers lead strictly backwards is always decoded, to its spelling. */
  lemma {:induction false} NamesAreDecoded(m: seq<Byte>, at: nat, start: nat, seen: set<nat>)
    requires Labels(m, at, start, INT8_OFFSET).Some? && forall s :: s in seen ==> s >= start
    ensures Decoded(m, at, seen) == Text(Spelled(m, at, start))
    decreases start, |m| - at
  {
    if m[at] == 0 {
    } else if m[at] == COMPRESSION {
      DecoderPointer(m, at, start);
      var to := Offset(m, at);
      NamesAreDecoded(m, to, to, seen + {to});
    } else {
      LabelsStep(m, at, start);
      NamesAreDecoded(m, at + 1 + m[at], start, seen);
    }
  }

  /** nameFromPointer. `seen` are the segments that its callers have entered. */
  method NameFromPointer(m: seq<Byte>, at: nat, ghost seen: set<nat>) returns (result: seq<Byte>)
    requires Decoded(m, at, seen).Text?
    ensures result == Decoded(m, at, seen).text
    decreases Positions(|m|) - seen
  {
    hide Decoded, Before;
    result := [];
    var iter: nat := at;
    NothingBefore(Decoded(m, at, seen));
    DecodedInside(m, at, seen);
    while m[iter] != 0
      invariant iter < |m| && Decoded(m, iter, seen).Text?
      invariant Before(result, Decoded(m, iter, seen)) == Decoded(m, at, seen)
      decreases |m| - iter
    {
      if m[iter] == COMPRESSION {
        PointerDecoded(m, iter, seen, result);
        iter := iter + 1;
        var tail := NameFromPointer(m, ToInt8(m[iter]), seen + {ToInt8(m[iter])});
        result := result + tail;
        return;
      }
      var length: nat := m[iter];
      LabelDecoded(m, iter, seen, result);
      iter := iter + 1;
      result := result + m[iter..iter + length];
      iter := iter + length;
      if m[iter] != 0 {
        result := result + [DOT];
      }
    }
    RootDecoded(m, iter, seen, result);
  }

  lemma NothingBefore(d: Decoding)
    ensures Before([], d) == d
  {
    if d.Text? {
      assert [] + d.text == d.text;
    }
  }

  lemma DecodedInside(m: seq<Byte>, at: nat, seen: set<nat>)
    requires Decoded(m, at, seen).Text?
    ensures at < |m|
  {
  }

  lemma RootDecoded(m: seq<Byte>, at: nat, seen: set<nat>, before: seq<Byte>)
    requires at < |m| && m[at] == 0
    ensures Before(before, Decoded(m, at, seen)) == Text(before)
  {
    assert before + [] == before;
  }

  lemma PointerDecoded(m: seq<Byte>, at: nat, seen: set<nat>, before: seq<Byte>)
    requires Decoded(m, at, seen).Text? && m[at] == COMPRESSION
    ensures at + 1 < |m| && ToInt8(m[at + 1]) == m[at + 1]
    ensures var to: nat := m[at + 1];
      to in Positions(|m|) - seen && Decoded(m, to, seen + {to}).Text?
      && Before(before, Decoded(m, at, seen)) == Text(before + Decoded(m, to, seen + {to}).text)
  {
  }

  lemma LabelDecoded(m: seq<Byte>, at: nat, seen: set<nat>, before: seq<Byte>)
    requires Decoded(m, at, seen).Text? && m[at] != 0 && m[at] != COMPRESSION
    ensures var next := at + 1 + m[at];
      next < |m| && Decoded(m, next, seen).Text? && Before(before, Decoded(m, at, seen)) ==
        Before(if m[next] == 0 then before + m[at + 1..next] else before + m[at + 1..next] + [DOT],
          Decoded(m, next, seen))
  {
    var next := at + 1 + m[at];
    Reassociate(before, m[at + 1..next], if m[next] == 0 then [] else [DOT], Decoded(m, next, seen).text);
  }
}
