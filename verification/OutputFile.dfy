/** The output file of base_request.cpp: what opening, writing, closing and removing it leaves behind. */
module OutputFiles {
  import opened Text

  datatype FileEvent =
    | Opened(truncated: bool)  // by the constructor of the stream, or by the second try in append mode
    | Written(data: string)
    | Closed
    | Removed

  /** The content of the file after a run of events, None when there is no file. */
  function Content(before: Option<string>, events: seq<FileEvent>): Option<string> {
    if events == [] then before
    else
      var init := Content(before, events[..|events| - 1]);
      match events[|events| - 1]
      case Opened(truncated) => if truncated then Some("") else Some(OrEmpty(init))
      case Written(data) => Some(OrEmpty(init) + data)
      case Closed => init
      case Removed => None
  }

  function OrEmpty(content: Option<string>): string {
    match content
    case Some(text) => text
    case None => ""
  }

  /** What opening the file, when its stream was not open, adds to the events and makes of the content. */
  predicate OpenedFrom(wasOpen: bool, before: Option<string>, events: seq<FileEvent>,
                       after: Option<string>, longer: seq<FileEvent>)
  {
    if wasOpen then after == before && longer == events
    else
      || (after == Some("") && longer == events + [Opened(true)])
      || (after == Some(OrEmpty(before)) && longer == events + [Opened(false)])
  }

  /** The same with data written behind. */
  predicate WrittenTo(wasOpen: bool, before: Option<string>, events: seq<FileEvent>, data: string,
                      after: Option<string>, longer: seq<FileEvent>)
  {
    if wasOpen then after == Some(OrEmpty(before) + data) && longer == events + [Written(data)]
    else
      || (after == Some(data) && longer == events + [Opened(true)] + [Written(data)])
      || (after == Some(OrEmpty(before) + data) && longer == events + [Opened(false)] + [Written(data)])
  }

  lemma WrittenAfresh(before: Option<string>, events: seq<FileEvent>, data: string, after: Option<string>,
                      longer: seq<FileEvent>) returns (truncated: bool)
    requires WrittenTo(false, before, events, data, after, longer)
    ensures longer == events + [Opened(truncated)] + [Written(data)] && (truncated ==> after == Some(data))
  {
    truncated := after == Some(data) && longer == events + [Opened(true)] + [Written(data)];
  }

  lemma OpenedThenWritten(wasOpen: bool, before: Option<string>, events: seq<FileEvent>, middle: Option<string>,
                          longer: seq<FileEvent>, data: string)
    requires OpenedFrom(wasOpen, before, events, middle, longer)
    ensures WrittenTo(wasOpen, before, events, data, Some(OrEmpty(middle) + data), longer + [Written(data)])
  {
    assert "" + data == data;
  }

  /** Everything that was written, whatever became of it. */
  function WrittenBytes(events: seq<FileEvent>): string {
    if events == [] then ""
    else
      var e := events[|events| - 1];
      WrittenBytes(events[..|events| - 1]) + if e.Written? then e.data else ""
  }

  /** The events that leave nothing of what the file held. */
  predicate Resets(e: FileEvent) {
    e.Removed? || e == Opened(true)
  }

  predicate SomeReset(events: seq<FileEvent>) {
    exists k :: 0 <= k < |events| && Resets(events[k])
  }

  /** Nothing had been written before any reset. */
  predicate ResetsComeFirst(events: seq<FileEvent>) {
    forall k :: 0 <= k < |events| && Resets(events[k]) ==> WrittenBytes(events[..k]) == ""
  }

  /** Nothing written was lost in a reset, and without a reset the file was empty at first. */
  predicate NothingLost(before: Option<string>, events: seq<FileEvent>) {
    ResetsComeFirst(events) && (SomeReset(events) || OrEmpty(before) == "")
  }

  /** The position behind the last reset. */
  function BehindResets(events: seq<FileEvent>): (s: nat)
    ensures s <= |events|
    ensures s > 0 ==> Resets(events[s - 1])
    ensures forall k :: s <= k < |events| ==> !Resets(events[k])
  {
    if events == [] then 0
    else if Resets(events[|events| - 1]) then |events|
    else BehindResets(events[..|events| - 1])
  }

  lemma {:induction false} BytesConcat(a: seq<FileEvent>, b: seq<FileEvent>)
    ensures WrittenBytes(a + b) == WrittenBytes(a) + WrittenBytes(b)
  {
    if b == [] {
      assert a + b == a;
    } else {
      var init := b[..|b| - 1];
      assert (a + b)[..|a + b| - 1] == a + init;
      BytesConcat(a, init);
    }
  }

  lemma BytesAppend(events: seq<FileEvent>, e: FileEvent)
    ensures WrittenBytes(events + [e]) == WrittenBytes(events) + if e.Written? then e.data else ""
  {
    assert (events + [e])[..|events|] == events;
  }

  lemma ContentAppend(before: Option<string>, events: seq<FileEvent>, e: FileEvent)
    ensures Content(before, events + [e]) ==
      var init := Content(before, events);
      match e
      case Opened(truncated) => if truncated then Some("") else Some(OrEmpty(init))
      case Written(data) => Some(OrEmpty(init) + data)
      case Closed => init
      case Removed => None
  {
    assert (events + [e])[..|events|] == events;
  }

  /** One more event resets the file, or adds what it writes. */
  lemma OneMoreEvent(before: Option<string>, events: seq<FileEvent>)
    requires events != []
    ensures var init, e := events[..|events| - 1], events[|events| - 1];
      var data := if e.Written? then e.data else "";
      if Resets(e) then BehindResets(events) == |events| && OrEmpty(Content(before, events)) == ""
      else
        var s := BehindResets(init);
        BehindResets(events) == s && OrEmpty(Content(before, events)) == OrEmpty(Content(before, init)) + data
        && WrittenBytes(events[s..]) == WrittenBytes(init[s..]) + data
  {
    var init, e := events[..|events| - 1], events[|events| - 1];
    var text := OrEmpty(Content(before, init));
    assert text + "" == text;
    if !Resets(e) {
      var s := BehindResets(init);
      assert events[s..] == init[s..] + [e];
      BytesAppend(init[s..], e);
      hide WrittenBytes;
    }
  }

  /** The file holds what it held before, unless that was reset, and what has been written since. */
  lemma {:induction false} ContentSinceReset(before: Option<string>, events: seq<FileEvent>)
    ensures var s := BehindResets(events);
      OrEmpty(Content(before, events)) == (if s == 0 then OrEmpty(before) else "") + WrittenBytes(events[s..])
  {
    var s := BehindResets(events);
    if events == [] {
      assert events[s..] == [] && OrEmpty(before) + "" == OrEmpty(before);
    } else {
      var init, e := events[..|events| - 1], events[|events| - 1];
      OneMoreEvent(before, events);
      NothingWritten();
      hide Content, WrittenBytes, Resets, BehindResets, OrEmpty;
      if Resets(e) {
        assert events[s..] == [];
      } else {
        ContentSinceReset(before, init);
        Associative(if s == 0 then OrEmpty(before) else "", WrittenBytes(init[s..]), if e.Written? then e.data else "");
      }
    }
  }

  /** The file holds exactly what was written if and only if it is there and nothing was lost. */
  lemma FileIsCompleteIff(before: Option<string>, events: seq<FileEvent>)
    ensures var content := Content(before, events);
      content == Some(WrittenBytes(events)) <==> content.Some? && NothingLost(before, events)
  {
    var s := BehindResets(events);
    ContentSinceReset(before, events);
    assert events == events[..s] + events[s..];
    BytesConcat(events[..s], events[s..]);
    ResetsAreBehind(events);
    hide Content, WrittenBytes, ResetsComeFirst, SomeReset;
    assert s == 0 ==> events[..s] == [];
    NothingWritten();
  }

  lemma NothingWritten()
    ensures WrittenBytes([]) == ""
  {
  }

  lemma ResetsAreBehind(events: seq<FileEvent>)
    ensures SomeReset(events) <==> BehindResets(events) > 0
    ensures ResetsComeFirst(events) <==> WrittenBytes(events[..BehindResets(events)]) == ""
  {
    var s := BehindResets(events);
    hide WrittenBytes, BehindResets;
    if s == 0 {
      assert events[..s] == [];
      NothingWritten();
    } else {
      BytesAppend(events[..s - 1], events[s - 1]);
      assert events[..s - 1] + [events[s - 1]] == events[..s];
      forall k | 0 <= k < s ensures |WrittenBytes(events[..k])| <= |WrittenBytes(events[..s])| {
        BytesGrow(events, k, s);
      }
    }
  }

  lemma BytesGrow(events: seq<FileEvent>, k: nat, s: nat)
    requires k <= s <= |events|
    ensures |WrittenBytes(events[..k])| <= |WrittenBytes(events[..s])|
  {
    assert events[..s] == events[..k] + events[k..s];
    BytesConcat(events[..k], events[k..s]);
  }
}
