/** The cooperative scheduler of request_handler.cpp: two lists walked by two iterators. */
module Scheduler {
  import opened Text

  /** A request to add. A DNS request has no coroutine. */
  datatype Request = Transfer(id: nat) | Dns(id: nat)

  /** A suspended request; `remaining` counts the calls of resume() up to the one that returns false. Over a
      finite run a request that never finishes is one with a large enough count. */
  datatype Coroutine = Coroutine(request: Request, remaining: nat)

  /** The state between two resumes. */
  datatype State = State(
    coroutines: seq<Coroutine>,   // m_processed_requests
    pointers: seq<Request>,       // m_processed_requests_pointers
    inPass: bool,                 // the iterators stand inside the lists
    iterator_: nat,
    pointerIterator: nat,
    counter: nat,                 // active_requests_counter, 8 bits
    limit: nat,                   // m_max_processed_requests_count
    added: seq<Request>,
    finished: seq<Request>)

  datatype Event = Add(request: Request, resumes: nat) | SetLimit(limit: nat) | Resume

  function WithoutAt<T>(s: seq<T>, i: nat): (r: seq<T>)
    requires i < |s|
    ensures |r| == |s| - 1
    ensures forall k :: 0 <= k < |r| ==> r[k] == if k < i then s[k] else s[k + 1]
  {
    s[..i] + s[i + 1..]
  }

  /** addRequest: one step under the lock. The iterators of a std::list stay where they are, and the end stays the
      end. */
  function Added(s: State, request: Request, resumes: nat): State {
    s.(pointerIterator := AfterAdd(s.inPass, s.pointerIterator, |s.pointers|),
       coroutines := s.coroutines + if request.Transfer? then [Coroutine(request, resumes + 1)] else [],
       pointers := s.pointers + [request],
       added := s.added + [request])
  }

  /** Where the second iterator stands when an element has been added to a list of this length. */
  function AfterAdd(inPass: bool, i: nat, length: nat): nat {
    if inPass && i == length then i + 1 else i
  }

  /** Erasing at i leaves the iterator on the next element, or at the beginning when there is none. */
  function AfterErase(i: nat, length: nat): nat {
    if i >= length then 0 else i
  }

  /** The element behind the iterators finishes. */
  function Erased(s: State): State
    requires s.iterator_ < |s.coroutines| && s.pointerIterator < |s.pointers|
  {
    var cs, ps := WithoutAt(s.coroutines, s.iterator_), WithoutAt(s.pointers, s.pointerIterator);
    s.(coroutines := cs, pointers := ps, inPass := cs != [],
       iterator_ := AfterErase(s.iterator_, |cs|), pointerIterator := AfterErase(s.pointerIterator, |ps|),
       counter := (s.counter + 255) % 256,
       finished := s.finished + [s.coroutines[s.iterator_].request])
  }

  /** It goes on: over the limit the walk restarts, otherwise it advances and may leave the lists. */
  function Advanced(s: State): State
    requires s.iterator_ < |s.coroutines|
  {
    var c := s.coroutines[s.iterator_];
    var resumed := c.(remaining := if c.remaining > 0 then c.remaining - 1 else 0);
    var t := s.(coroutines := s.coroutines[s.iterator_ := resumed]);
    if s.counter > s.limit then t.(iterator_ := 0, pointerIterator := 0, inPass := true)
    else t.(iterator_ := s.iterator_ + 1, pointerIterator := s.pointerIterator + 1,
            inPass := s.iterator_ + 1 < |s.coroutines|, counter := (s.counter + 1) % 256)
  }

  /** The pass that a resume belongs to: the one going on, or a new one. */
  function Positioned(s: State): State {
    if s.inPass then s else s.(iterator_ := 0, pointerIterator := 0)
  }

  /** One resume; on empty lists the thread sleeps. None where the second iterator would be moved or erased at
      the end of its list. */
  function Resumed(s: State): Option<State> {
    var t := Positioned(s);
    if t.coroutines == [] then Some(s)
    else if t.iterator_ >= |t.coroutines| then None
    else if t.coroutines[t.iterator_].remaining <= 1 then
      if t.pointerIterator < |t.pointers| then Some(Erased(t)) else None
    else if t.counter > t.limit || t.pointerIterator < |t.pointers| then Some(Advanced(t))
    else None
  }

  function Applied(s: State, e: Event): Option<State> {
    match e
    case Add(request, resumes) => Some(Added(s, request, resumes))
    case SetLimit(limit) => Some(s.(limit := limit))
    case Resume => Resumed(s)
  }

  /** Any interleaving of adds and new limits with resumes. */
  function Run(s: State, events: seq<Event>): Option<State>
    decreases |events|
  {
    if events == [] then Some(s)
    else
      match Run(s, events[..|events| - 1])
      case Some(t) => Applied(t, events[|events| - 1])
      case None => None
  }

  function Start(limit: nat): State {
    State([], [], false, 0, 0, 0, limit, [], [])
  }

  lemma RunAppend(s: State, events: seq<Event>, e: Event)
    ensures Run(s, events + [e]) ==
      match Run(s, events)
      case Some(t) => Applied(t, e)
      case None => None
  {
    assert (events + [e])[..|events|] == events;
  }

  /** A second iterator at the end of its list stays there, whatever is added, until a pass begins or a restart. */
  lemma EndStaysTheEnd(s: State, request: Request, resumes: nat)
    requires s.inPass && s.pointerIterator == |s.pointers|
    ensures var t := Added(s, request, resumes); t.pointerIterator == |t.pointers|
    ensures s.iterator_ < |s.coroutines| && (s.coroutines[s.iterator_].remaining <= 1 || s.counter <= s.limit) ==>
      Resumed(s) == None && Resumed(Added(s, request, resumes)) == None
  {
  }

  // What every run keeps.

  function OnlyTransfers(requests: seq<Request>): seq<Request> {
    if requests == [] then []
    else
      var r := requests[|requests| - 1];
      OnlyTransfers(requests[..|requests| - 1]) + if r.Transfer? then [r] else []
  }

  lemma OnlyTransfersAppend(requests: seq<Request>, r: Request)
    ensures OnlyTransfers(requests + [r]) == OnlyTransfers(requests) + if r.Transfer? then [r] else []
  {
    assert (requests + [r])[..|requests|] == requests;
  }

  function Requests(cs: seq<Coroutine>): (r: seq<Request>)
    ensures |r| == |cs| && forall i :: 0 <= i < |cs| ==> r[i] == cs[i].request
  {
    seq(|cs|, i requires 0 <= i < |cs| => cs[i].request)
  }

  /** The first iterator stands inside its list, and every coroutine needs another resume. */
  ghost predicate Standing(s: State) {
    (s.inPass ==> s.iterator_ < |s.coroutines|) && forall i :: 0 <= i < |s.coroutines| ==> s.coroutines[i].remaining > 0
  }

  /** Every transfer added has finished or has a coroutine, once. */
  ghost predicate Conserved(s: State) {
    multiset(OnlyTransfers(s.added)) == multiset(s.finished) + multiset(Requests(s.coroutines))
  }

  /** The pointers outnumber the coroutines by the DNS requests. */
  ghost predicate Counted(s: State) {
    |s.pointers| - |s.coroutines| == |s.added| - |OnlyTransfers(s.added)|
  }

  ghost predicate Sound(s: State) {
    Standing(s) && Conserved(s) && Counted(s)
  }

  lemma MultisetWithoutAt<T>(s: seq<T>, i: nat)
    requires i < |s|
    ensures multiset(s) == multiset(WithoutAt(s, i)) + multiset{s[i]}
  {
    assert s == s[..i] + [s[i]] + s[i + 1..];
  }

  lemma AddedSound(s: State, request: Request, resumes: nat)
    requires Sound(s)
    ensures Sound(Added(s, request, resumes))
  {
    OnlyTransfersAppend(s.added, request);
    hide OnlyTransfers;
    var t := Added(s, request, resumes);
    assert Requests(t.coroutines) == Requests(s.coroutines) + if request.Transfer? then [request] else [];
  }

  lemma ErasedSound(s: State)
    requires Sound(s) && s.iterator_ < |s.coroutines| && s.pointerIterator < |s.pointers|
    ensures Sound(Erased(s))
  {
    hide OnlyTransfers;
    var cs := WithoutAt(s.coroutines, s.iterator_);
    MultisetWithoutAt(Requests(s.coroutines), s.iterator_);
    assert Requests(cs) == WithoutAt(Requests(s.coroutines), s.iterator_);
  }

  lemma AdvancedSound(s: State)
    requires Sound(s) && s.iterator_ < |s.coroutines| && s.coroutines[s.iterator_].remaining > 1
    ensures Sound(Advanced(s))
  {
    hide OnlyTransfers;
    assert Requests(Advanced(s).coroutines) == Requests(s.coroutines);
  }

  lemma AppliedSound(s: State, e: Event)
    requires Sound(s) && Applied(s, e).Some?
    ensures Sound(Applied(s, e).value)
  {
    match e
    case Add(request, resumes) => AddedSound(s, request, resumes);
    case SetLimit(_) =>
    case Resume =>
      var t := Positioned(s);
      if t.coroutines != [] {
        if t.coroutines[t.iterator_].remaining <= 1 {
          ErasedSound(t);
        } else {
          AdvancedSound(t);
        }
      }
  }

  lemma {:induction false} RunSound(s: State, events: seq<Event>)
    requires Sound(s) && Run(s, events).Some?
    ensures Sound(Run(s, events).value)
    decreases |events|
  {
    if events != [] {
      var before := events[..|events| - 1];
      RunSound(s, before);
      AppliedSound(Run(s, before).value, events[|events| - 1]);
    }
  }

  function Adds(events: seq<Event>): seq<Request> {
    if events == [] then []
    else
      var e := events[|events| - 1];
      Adds(events[..|events| - 1]) + if e.Add? then [e.request] else []
  }

  lemma {:induction false} RunKeepsAdds(s: State, events: seq<Event>)
    requires Run(s, events).Some?
    ensures Run(s, events).value.added == s.added + Adds(events)
  {
    if events == [] {
      assert s.added + [] == s.added;
    } else {
      var before, e := events[..|events| - 1], events[|events| - 1];
      RunKeepsAdds(s, before);
      AppliedAdds(Run(s, before).value, e);
      Associative(s.added, Adds(before), if e.Add? then [e.request] else []);
    }
  }

  lemma AppliedAdds(s: State, e: Event)
    requires Applied(s, e).Some?
    ensures Applied(s, e).value.added == s.added + if e.Add? then [e.request] else []
  {
  }

  /** Under any interleaving every transfer added is finished or has a coroutine, without loss or duplicate, and
      the pointers outnumber the coroutines by the DNS requests added. */
  lemma ConservationOfTransfers(limit: nat, events: seq<Event>)
    requires Run(Start(limit), events).Some?
    ensures var s, adds := Run(Start(limit), events).value, Adds(events);
      multiset(OnlyTransfers(adds)) == multiset(s.finished) + multiset(Requests(s.coroutines))
      && |s.pointers| == |s.coroutines| + |adds| - |OnlyTransfers(adds)|
  {
    assert Sound(Start(limit));
    RunSound(Start(limit), events);
    RunKeepsAdds(Start(limit), events);
    hide Run, Adds, OnlyTransfers;
    assert [] + Adds(events) == Adds(events);
  }

  // Lockstep.

  /** The lists name the same requests in the same order. */
  ghost predicate Paired(cs: seq<Coroutine>, ps: seq<Request>) {
    |cs| == |ps| && forall i :: 0 <= i < |ps| ==> cs[i].request == ps[i]
  }

  /** Both iterators stand on the same element. */
  ghost predicate InStep(s: State) {
    s.inPass ==> s.iterator_ == s.pointerIterator < |s.pointers|
  }

  ghost predicate Lockstep(s: State) {
    Sound(s) && Paired(s.coroutines, s.pointers) && InStep(s)
  }

  predicate AllTransfers(requests: seq<Request>) {
    forall i :: 0 <= i < |requests| ==> requests[i].Transfer?
  }

  /** An add keeps the lists in lockstep exactly when the request has a coroutine. */
  lemma AddedLockstepIff(s: State, request: Request, resumes: nat)
    requires Lockstep(s)
    ensures Lockstep(Added(s, request, resumes)) <==> request.Transfer?
  {
    AddedSound(s, request, resumes);
    hide Sound;
    assert |Added(s, request, resumes).pointers| == |s.pointers| + 1;
  }

  /** A resume, with its erase, its wrap to the beginning or its restart, keeps them in lockstep. */
  lemma ResumedLockstep(s: State)
    requires Lockstep(s)
    ensures Resumed(s).Some? && Lockstep(Resumed(s).value)
  {
    var t := Positioned(s);
    assert Standing(t);
    if t.coroutines != [] {
      assert Resumed(s).Some?;
      AppliedSound(s, Resume);
      hide Sound, Standing;
      if t.coroutines[t.iterator_].remaining <= 1 {
        ErasedLockstep(t);
      } else {
        AdvancedLockstep(t);
      }
    }
  }

  lemma ErasedLockstep(s: State)
    requires Paired(s.coroutines, s.pointers) && s.iterator_ == s.pointerIterator < |s.pointers|
    ensures Paired(Erased(s).coroutines, Erased(s).pointers) && InStep(Erased(s))
  {
  }

  lemma AdvancedLockstep(s: State)
    requires Paired(s.coroutines, s.pointers) && s.iterator_ == s.pointerIterator < |s.pointers|
    ensures Paired(Advanced(s).coroutines, Advanced(s).pointers) && InStep(Advanced(s))
  {
  }

  lemma {:induction false} RunLockstep(s: State, events: seq<Event>)
    requires Lockstep(s) && AllTransfers(Adds(events))
    ensures Run(s, events).Some? && Lockstep(Run(s, events).value)
    decreases |events|
  {
    if events != [] {
      var before, e := events[..|events| - 1], events[|events| - 1];
      AddsOfPrefix(events);
      RunLockstep(s, before);
      hide Adds, AllTransfers, Lockstep;
      var t := Run(s, before).value;
      match e
      case Add(request, resumes) => AddedLockstepIff(t, request, resumes);
      case SetLimit(limit) => LimitLockstep(t, limit);
      case Resume => ResumedLockstep(t);
    }
  }

  lemma AddsOfPrefix(events: seq<Event>)
    requires events != [] && AllTransfers(Adds(events))
    ensures AllTransfers(Adds(events[..|events| - 1]))
    ensures events[|events| - 1].Add? ==> events[|events| - 1].request.Transfer?
  {
    var before, all := Adds(events[..|events| - 1]), Adds(events);
    assert forall i :: 0 <= i < |before| ==> before[i] == all[i];
    assert events[|events| - 1].Add? ==> events[|events| - 1].request == all[|before|];
  }

  lemma LimitLockstep(s: State, limit: nat)
    requires Lockstep(s)
    ensures Lockstep(s.(limit := limit))
  {
  }

  lemma StartLockstep(limit: nat)
    ensures Lockstep(Start(limit))
  {
  }

  /** Every transfer of transfers only. */
  lemma {:induction false} OnlyTransfersIff(requests: seq<Request>)
    ensures |OnlyTransfers(requests)| <= |requests|
    ensures OnlyTransfers(requests) == requests <==> AllTransfers(requests)
    ensures |OnlyTransfers(requests)| == |requests| <==> AllTransfers(requests)
  {
    if requests != [] {
      var init, r := requests[..|requests| - 1], requests[|requests| - 1];
      OnlyTransfersIff(init);
      assert requests == init + [r];
      assert AllTransfers(requests) <==> AllTransfers(init) && r.Transfer?;
    }
  }

  /** A run stays in lockstep exactly when no DNS request is added. */
  lemma LockstepIff(limit: nat, events: seq<Event>)
    ensures (Run(Start(limit), events).Some? && Lockstep(Run(Start(limit), events).value))
      <==> AllTransfers(Adds(events))
  {
    StartLockstep(limit);
    OnlyTransfersIff(Adds(events));
    hide Adds, AllTransfers, OnlyTransfers, Run, Start;
    if AllTransfers(Adds(events)) {
      RunLockstep(Start(limit), events);
    } else if Run(Start(limit), events).Some? {
      ConservationOfTransfers(limit, events);
    }
  }

  /** Without DNS requests the lists name the same requests, both iterators stand at one index, and every request
      added is finished or live. */
  lemma LockstepAndConservation(limit: nat, events: seq<Event>)
    requires AllTransfers(Adds(events))
    ensures Run(Start(limit), events).Some?
    ensures var s := Run(Start(limit), events).value;
      |s.coroutines| == |s.pointers|
      && (forall i :: 0 <= i < |s.pointers| ==> s.coroutines[i].request == s.pointers[i])
      && (s.inPass ==> s.iterator_ == s.pointerIterator < |s.pointers|)
      && multiset(Adds(events)) == multiset(s.finished) + multiset(s.pointers)
  {
    StartLockstep(limit);
    RunLockstep(Start(limit), events);
    ConservationOfTransfers(limit, events);
    OnlyTransfersIff(Adds(events));
    hide Adds, AllTransfers, OnlyTransfers, Run, Start, Sound;
    var s := Run(Start(limit), events).value;
    assert Requests(s.coroutines) == s.pointers;
  }

  /** So distinct requests are never duplicated: none is both finished and live, none is in a list twice. */
  lemma NoDuplicates(limit: nat, events: seq<Event>, r: Request)
    requires AllTransfers(Adds(events)) && multiset(Adds(events))[r] == 1
    ensures Run(Start(limit), events).Some?
    ensures var s := Run(Start(limit), events).value;
      multiset(s.finished)[r] + multiset(s.pointers)[r] == 1
  {
    LockstepAndConservation(limit, events);
  }

  // Draining.

  function Total(cs: seq<Coroutine>): nat {
    if cs == [] then 0 else cs[|cs| - 1].remaining + Total(cs[..|cs| - 1])
  }

  lemma {:induction false} TotalReplaced(cs: seq<Coroutine>, i: nat, c: Coroutine)
    requires i < |cs|
    ensures Total(cs[i := c]) == Total(cs) - cs[i].remaining + c.remaining
  {
    var n := |cs| - 1;
    if i < n {
      TotalReplaced(cs[..n], i, c);
      assert cs[i := c][..n] == cs[..n][i := c];
    } else {
      assert cs[i := c][..n] == cs[..n];
    }
  }

  lemma {:induction false} TotalWithout(cs: seq<Coroutine>, i: nat)
    requires i < |cs|
    ensures Total(WithoutAt(cs, i)) == Total(cs) - cs[i].remaining
  {
    var n := |cs| - 1;
    if i < n {
      TotalWithout(cs[..n], i);
      assert WithoutAt(cs, i)[..n - 1] == WithoutAt(cs[..n], i);
    } else {
      assert WithoutAt(cs, i) == cs[..n];
    }
  }

  lemma TotalZero(s: State)
    requires Standing(s)
    ensures Total(s.coroutines) == 0 <==> s.coroutines == []
    ensures s.coroutines == [] ==> Resumed(s) == Some(s)
  {
    if s.coroutines != [] {
      assert s.coroutines[|s.coroutines| - 1].remaining > 0;
    }
  }

  /** Every step on non-empty lists is exactly one resume, whatever the counter and the limit are. */
  lemma ResumeUsesOne(s: State)
    requires Standing(s) && s.coroutines != [] && Resumed(s).Some?
    ensures Total(Resumed(s).value.coroutines) == Total(s.coroutines) - 1
    ensures Resumed(s).value.added == s.added
  {
    hide Total;
    var t := Positioned(s);
    var c := t.coroutines[t.iterator_];
    if c.remaining <= 1 {
      TotalWithout(t.coroutines, t.iterator_);
    } else {
      TotalReplaced(t.coroutines, t.iterator_, c.(remaining := c.remaining - 1));
    }
  }

  function Resumes(n: nat): seq<Event> {
    seq(n, _ => Resume)
  }

  lemma NoResumes(s: State)
    ensures Run(s, Resumes(0)) == Some(s)
  {
    assert Resumes(0) == [];
  }

  lemma OneMoreResume(s: State, n: nat)
    requires n > 0
    ensures Run(s, Resumes(n)) ==
      match Run(s, Resumes(n - 1))
      case Some(t) => Resumed(t)
      case None => None
  {
    hide Run, Resumed;
    RunAppend(s, Resumes(n - 1), Resume);
    assert Resumes(n) == Resumes(n - 1) + [Resume];
  }

  /** Once adds stop, the lists are empty after exactly the sum of the remaining resumes, as long as the second
      iterator stays in its list. */
  lemma {:induction false} Drains(s: State, n: nat)
    requires Sound(s) && Run(s, Resumes(n)).Some?
    ensures var t := Run(s, Resumes(n)).value;
      Total(t.coroutines) == (if n <= Total(s.coroutines) then Total(s.coroutines) - n else 0)
      && (t.coroutines == [] <==> Total(s.coroutines) <= n)
  {
    hide Run, Resumes, Resumed, Total, Sound, Standing;
    RunSound(s, Resumes(n));
    SoundIsStanding(Run(s, Resumes(n)).value);
    TotalZero(Run(s, Resumes(n)).value);
    if n == 0 {
      NoResumes(s);
    } else {
      OneMoreResume(s, n);
      Drains(s, n - 1);
      var u := Run(s, Resumes(n - 1)).value;
      RunSound(s, Resumes(n - 1));
      SoundIsStanding(u);
      TotalZero(u);
      if u.coroutines != [] {
        ResumeUsesOne(u);
      }
    }
  }

  lemma SoundIsStanding(s: State)
    requires Sound(s)
    ensures Standing(s)
  {
  }

  /** Which it does in lockstep. */
  lemma {:induction false} LockstepDrains(s: State, n: nat)
    requires Lockstep(s)
    ensures Run(s, Resumes(n)).Some? && Lockstep(Run(s, Resumes(n)).value)
  {
    hide Run, Resumes, Resumed, Lockstep;
    if n == 0 {
      NoResumes(s);
    } else {
      LockstepDrains(s, n - 1);
      OneMoreResume(s, n);
      ResumedLockstep(Run(s, Resumes(n - 1)).value);
    }
  }

  /** The first request has `remaining` resumes left. */
  function WithFirst(s: State, remaining: nat): State
    requires s.coroutines != []
  {
    s.(coroutines := s.coroutines[0 := s.coroutines[0].(remaining := remaining)])
  }

  ghost predicate AtFirstOverTheLimit(s: State) {
    s.inPass && s.iterator_ == 0 && s.coroutines != [] && s.counter > s.limit && s.pointerIterator == 0
  }

  lemma FirstUnchanged(s: State)
    requires s.coroutines != []
    ensures WithFirst(s, s.coroutines[0].remaining) == s
  {
    var c := s.coroutines[0];
    assert s.coroutines[0 := c.(remaining := c.remaining)] == s.coroutines;
  }

  lemma FirstResumed(s: State, remaining: nat)
    requires AtFirstOverTheLimit(s) && remaining > 1
    ensures Resumed(WithFirst(s, remaining)) == Some(WithFirst(s, remaining - 1))
  {
    var t := WithFirst(s, remaining);
    assert Positioned(t) == t && t.coroutines[t.iterator_].remaining == remaining;
    var c := s.coroutines[0].(remaining := remaining - 1);
    assert t.coroutines[0 := c] == s.coroutines[0 := c];
  }

  /** Over the limit only the first request is resumed, until it finishes; nothing else changes. */
  lemma {:induction false} OverTheLimit(s: State, n: nat)
    requires AtFirstOverTheLimit(s) && n < s.coroutines[0].remaining
    ensures Run(s, Resumes(n)) == Some(WithFirst(s, s.coroutines[0].remaining - n))
  {
    hide Run, Resumed, Resumes, WithFirst;
    if n > 0 {
      OverTheLimit(s, n - 1);
      OneMoreResume(s, n);
      FirstResumed(s, s.coroutines[0].remaining - (n - 1));
    } else {
      NoResumes(s);
      FirstUnchanged(s);
    }
  }

  // The handler.

  /** The iterators at the beginning of a pass, which is part of its first resume. */
  function Begun(s: State): State {
    Positioned(s).(inPass := true)
  }

  lemma BeginningIsPartOfResume(s: State)
    requires s.coroutines != []
    ensures Resumed(Begun(s)) == Resumed(s)
  {
  }

  lemma NothingRun(s: State, events: seq<Event>)
    ensures Run(s, events[..0]) == Some(s)
  {
  }

  lemma OneMoreStep(s: State, events: seq<Event>, n: nat)
    requires n < |events| && Run(s, events).Some?
    ensures Run(s, events[..n]).Some? && Applied(Run(s, events[..n]).value, events[n]).Some?
    ensures Run(s, events[..n + 1]) == Applied(Run(s, events[..n]).value, events[n])
  {
    assert events[..n + 1] == events[..n] + [events[n]];
    RunAppend(s, events[..n], events[n]);
    PrefixRuns(s, events, n + 1);
  }

  lemma {:induction false} PrefixRuns(s: State, events: seq<Event>, n: nat)
    requires n <= |events| && Run(s, events).Some?
    ensures Run(s, events[..n]).Some?
    decreases |events|
  {
    if n < |events| {
      PrefixRuns(s, events[..|events| - 1], n);
      assert events[..|events| - 1][..n] == events[..n];
    } else {
      assert events[..n] == events;
    }
  }

  /** In lockstep the pointers are the requests of the coroutines, and all of them transfers. */
  lemma PairedTransfers(s: State)
    requires Lockstep(s)
    ensures s.pointers == Requests(s.coroutines) == OnlyTransfers(s.pointers)
    ensures s.coroutines == [] ==> Requests(s.coroutines) == []
  {
    assert s.pointers == Requests(s.coroutines);
    TransfersHaveCoroutines(s);
    OnlyTransfersIff(s.pointers);
  }

  lemma TransfersHaveCoroutines(s: State)
    requires Conserved(s)
    ensures AllTransfers(Requests(s.coroutines))
  {
    var rs := Requests(s.coroutines);
    forall i | 0 <= i < |rs| ensures rs[i].Transfer? {
      assert rs[i] in multiset(OnlyTransfers(s.added));
      OnlyTransfersMember(s.added, rs[i]);
    }
  }

  lemma {:induction false} OnlyTransfersMember(requests: seq<Request>, r: Request)
    requires r in OnlyTransfers(requests)
    ensures r.Transfer?
  {
    var last := requests[|requests| - 1];
    if r != last || !last.Transfer? {
      OnlyTransfersMember(requests[..|requests| - 1], r);
    }
  }

  lemma BegunSound(s: State)
    requires Sound(s) && s.coroutines != []
    ensures Sound(Begun(s))
  {
  }

  lemma NoneLeft(s: State)
    requires Sound(s) && s.coroutines == []
    ensures Total(s.coroutines) == 0 && multiset(OnlyTransfers(s.added)) == multiset(s.finished)
    ensures |s.pointers| == |s.added| - |OnlyTransfers(s.added)|
  {
    assert Requests(s.coroutines) == [];
  }

  /** However often the thread resumes, the second iterator stays in its list. */
  ghost predicate Drainable(s: State) {
    forall n: nat :: Run(s, Resumes(n)).Some?
  }

  class AsyncRequestHandler {
    var m_processed_requests: seq<Coroutine>
    var m_processed_requests_pointers: seq<Request>
    var m_max_processed_requests_count: nat
    var m_working: bool

    // Locals of the execution thread, named here so that the state between two resumes has a name.
    var activeIterator: nat
    var activePointerIterator: nat
    var inPass: bool
    var activeRequestsCounter: nat

    ghost var added: seq<Request>
    ghost var finished: seq<Request>
    /** The requests whose status was set to Canceled, and those refused with an error. */
    var canceled: seq<Request>
    var refused: seq<Request>

    ghost function View(): State
      reads this
    {
      State(m_processed_requests, m_processed_requests_pointers, inPass, activeIterator, activePointerIterator,
        activeRequestsCounter, m_max_processed_requests_count, added, finished)
    }

    constructor (limit: nat)
      ensures View() == Start(limit) && !m_working && canceled == [] && refused == []
    {
      m_processed_requests, m_processed_requests_pointers := [], [];
      m_max_processed_requests_count, m_working := limit, false;
      activeIterator, activePointerIterator, inPass, activeRequestsCounter := 0, 0, false, 0;
      added, finished, canceled, refused := [], [], [], [];
    }

    /** addRequest. */
    method AddRequest(request: Request, resumes: nat)
      modifies this
      ensures View() == if old(m_working) then Added(old(View()), request, resumes) else old(View())
      ensures refused == old(refused) + if old(m_working) then [] else [request]
      ensures m_working == old(m_working) && canceled == old(canceled)
    {
      if !m_working {
        refused := refused + [request];
        return;
      }
      activePointerIterator := AfterAdd(inPass, activePointerIterator, |m_processed_requests_pointers|);
      m_processed_requests_pointers := m_processed_requests_pointers + [request];
      if request.Transfer? {
        m_processed_requests := m_processed_requests + [Coroutine(request, resumes + 1)];
      }
      added := added + [request];
    }

    method SetMaxProcessedRequestsCount(count: nat)
      modifies this`m_max_processed_requests_count
      ensures View() == old(View()).(limit := count)
    {
      m_max_processed_requests_count := count;
    }

    /** The body of the inner loop of run. */
    method ResumeCurrent()
      requires Standing(View()) && inPass && Resumed(View()).Some?
      modifies this
      ensures Some(View()) == Resumed(old(View()))
      ensures m_working == old(m_working) && canceled == old(canceled) && refused == old(refused)
    {
      if m_processed_requests[activeIterator].remaining <= 1 {
        EraseCurrent();
      } else {
        AdvanceCurrent();
      }
    }

    /** resume() has returned false. */
    method EraseCurrent()
      requires activeIterator < |m_processed_requests| && activePointerIterator < |m_processed_requests_pointers|
      modifies this`m_processed_requests, this`m_processed_requests_pointers, this`finished, this`inPass
      modifies this`activeIterator, this`activePointerIterator, this`activeRequestsCounter
      ensures View() == Erased(old(View()))
    {
      finished := finished + [m_processed_requests[activeIterator].request];
      m_processed_requests := WithoutAt(m_processed_requests, activeIterator);
      if activeIterator >= |m_processed_requests| {
        activeIterator := 0;
      }
      m_processed_requests_pointers := WithoutAt(m_processed_requests_pointers, activePointerIterator);
      if activePointerIterator >= |m_processed_requests_pointers| {
        activePointerIterator := 0;
      }
      activeRequestsCounter := (activeRequestsCounter + 255) % 256;
      inPass := activeIterator < |m_processed_requests|;
    }

    /** resume() has returned true. */
    method AdvanceCurrent()
      requires activeIterator < |m_processed_requests|
      requires m_processed_requests[activeIterator].remaining > 1
      modifies this`m_processed_requests, this`inPass
      modifies this`activeIterator, this`activePointerIterator, this`activeRequestsCounter
      ensures View() == Advanced(old(View()))
    {
      var current := m_processed_requests[activeIterator];
      m_processed_requests := m_processed_requests[activeIterator := current.(remaining := current.remaining - 1)];
      if activeRequestsCounter > m_max_processed_requests_count {
        activeIterator := 0;
        activePointerIterator := 0;
        inPass := true;
        return;
      }
      activeIterator := activeIterator + 1;
      activePointerIterator := activePointerIterator + 1;
      activeRequestsCounter := (activeRequestsCounter + 1) % 256;
      inPass := activeIterator < |m_processed_requests|;
    }

    method BeginPass()
      requires !inPass && m_processed_requests != []
      modifies this`activeIterator, this`activePointerIterator, this`inPass
      ensures View() == Begun(old(View()))
    {
      activePointerIterator := 0;
      activeIterator := 0;
      inPass := true;
    }

    /** One step: an add or a new limit from another thread, or a resume by the execution thread. */
    method Step(e: Event)
      requires Standing(View()) && m_working && Applied(View(), e).Some?
      modifies this
      ensures Some(View()) == Applied(old(View()), e)
      ensures m_working && canceled == old(canceled) && refused == old(refused)
    {
      match e
      case Add(request, resumes) => AddRequest(request, resumes);
      case SetLimit(limit) => SetMaxProcessedRequestsCount(limit);
      case Resume =>
        if m_processed_requests != [] {
          if !inPass {
            BeginningIsPartOfResume(View());
            BeginPass();
          }
          ResumeCurrent();
        }
    }

    /** The execution thread of run, with the steps of other threads between its own as the script has them. */
    method ExecutionThread(script: seq<Event>)
      requires Sound(View()) && m_working && Run(View(), script).Some?
      modifies this
      ensures Sound(View()) && Some(View()) == Run(old(View()), script)
      ensures m_working && canceled == old(canceled) && refused == old(refused)
    {
      hide Sound, Applied, Run;
      ghost var start := View();
      NothingRun(start, script);
      for next := 0 to |script|
        invariant m_working && canceled == old(canceled) && refused == old(refused)
        invariant Sound(View()) && Run(start, script[..next]) == Some(View())
      {
        OneMoreStep(start, script, next);
        SoundIsStanding(View());
        AppliedSound(View(), script[next]);
        Step(script[next]);
      }
      assert script[..|script|] == script;
    }

    /** The state is that after n resumes, or after the beginning of the pass of the next one. */
    ghost predicate OnTrack(start: State, n: nat)
      reads this
    {
      if inPass then Resumed(View()) == Run(start, Resumes(n + 1)) else Run(start, Resumes(n)) == Some(View())
    }

    /** The inner loop, once adds have stopped. */
    method FinishPass(ghost start: State, ghost n: nat) returns (ghost resumes: nat)
      requires Sound(View()) && Drainable(start) && OnTrack(start, n)
      modifies this
      ensures Sound(View()) && !inPass && Run(start, Resumes(resumes)) == Some(View())
      ensures resumes + Total(m_processed_requests) == n + old(Total(m_processed_requests))
      ensures old(inPass) ==> resumes > n
      ensures m_working == old(m_working) && canceled == old(canceled) && refused == old(refused)
      ensures added == old(added)
    {
      hide Run, Resumes, Resumed, Total, Conserved, Counted;
      resumes := n;
      while inPass
        invariant Sound(View()) && OnTrack(start, resumes) && added == old(added)
        invariant resumes + Total(m_processed_requests) == n + old(Total(m_processed_requests))
        invariant resumes > n || inPass == old(inPass)
        invariant m_working == old(m_working) && canceled == old(canceled) && refused == old(refused)
        decreases Total(m_processed_requests)
      {
        assert Run(start, Resumes(resumes + 1)).Some?;
        ResumeUsesOne(View());
        AppliedSound(View(), Resume);
        ResumeCurrent();
        resumes := resumes + 1;
        OneMoreResume(start, resumes + 1);
      }
    }

    /** The same loops once adds have stopped: pass after pass until there is no coroutine. */
    method Drain() returns (ghost resumes: nat)
      requires Sound(View()) && Drainable(View())
      modifies this
      ensures m_processed_requests == [] && Sound(View()) && resumes == old(Total(m_processed_requests))
      ensures multiset(finished) == multiset(OnlyTransfers(added)) && added == old(added)
      ensures |m_processed_requests_pointers| == |added| - |OnlyTransfers(added)|
      ensures m_working == old(m_working) && canceled == old(canceled) && refused == old(refused)
    {
      hide Run, Resumes, Resumed, Total, Sound, OnlyTransfers;
      ghost var start := View();
      NoResumes(start);
      OneMoreResume(start, 1);
      resumes := FinishPass(start, 0);
      while m_processed_requests != []
        invariant Sound(View()) && added == old(added) && !inPass && Run(start, Resumes(resumes)) == Some(View())
        invariant resumes + Total(m_processed_requests) == Total(start.coroutines)
        invariant m_working == old(m_working) && canceled == old(canceled) && refused == old(refused)
        decreases Total(m_processed_requests)
      {
        BeginningIsPartOfResume(View());
        BegunSound(View());
        OneMoreResume(start, resumes + 1);
        BeginPass();
        resumes := FinishPass(start, resumes);
      }
      NoneLeft(View());
    }

    /** stop: the thread is joined, which lets the pass in progress come to its end. */
    method Stop() returns (ghost resumes: nat)
      requires Sound(View()) && Drainable(View())
      modifies this
      ensures Sound(View()) && !inPass && !m_working && added == old(added)
      ensures Run(old(View()), Resumes(resumes)) == Some(View())
      ensures canceled == old(canceled) && refused == old(refused)
    {
      hide Run, Resumes, Resumed;
      m_working := false;
      NoResumes(View());
      OneMoreResume(View(), 1);
      resumes := FinishPass(View(), 0);
    }

    /** The destructor: the transfers among the pointers are canceled, if there is a coroutine left; in lockstep
        these are exactly the requests that have not finished. */
    method Shutdown()
      requires Sound(View()) && Drainable(View()) && canceled == []
      modifies this
      ensures !m_working && added == old(added)
      ensures canceled == if m_processed_requests == [] then [] else OnlyTransfers(m_processed_requests_pointers)
      ensures multiset(OnlyTransfers(added)) == multiset(finished) + multiset(Requests(m_processed_requests))
      ensures Lockstep(old(View())) ==> canceled == Requests(m_processed_requests)
    {
      hide Run, Resumes, Resumed, Lockstep, OnlyTransfers, Total;
      ghost var start := View();
      ghost var resumes := Stop();
      if Lockstep(start) {
        LockstepDrains(start, resumes);
        PairedTransfers(View());
      }
      if m_processed_requests != [] {
        CancelAll();
      }
    }

    method CancelAll()
      requires canceled == []
      modifies this`canceled
      ensures canceled == OnlyTransfers(m_processed_requests_pointers)
    {
      var pointers := m_processed_requests_pointers;
      for i := 0 to |pointers|
        invariant canceled == OnlyTransfers(pointers[..i])
      {
        assert pointers[..i + 1] == pointers[..i] + [pointers[i]];
        OnlyTransfersAppend(pointers[..i], pointers[i]);
        if pointers[i].Transfer? {
          canceled := canceled + [pointers[i]];
        }
      }
      assert pointers[..|pointers|] == pointers;
    }
  }
}
