/** How the resumes of request_handler.cpp go round: one pass of the inner loop, at the limit and below it. */
module RoundRobin {
  import opened Text
  import opened Scheduler

  /** Before a pass in lockstep, with a resume to spare for every coroutine; the counter has eight bits. */
  ghost predicate Ready(s: State) {
    Lockstep(s) && !s.inPass && s.counter < 256
    && forall i :: 0 <= i < |s.coroutines| ==> s.coroutines[i].remaining > 1
  }

  /** The first k coroutines have used one resume each. */
  function OneEach(cs: seq<Coroutine>, k: nat): (r: seq<Coroutine>)
    ensures |r| == |cs|
    ensures forall i :: 0 <= i < |cs| ==>
      r[i] == if i < k then Coroutine(cs[i].request, if cs[i].remaining > 0 then cs[i].remaining - 1 else 0) else cs[i]
  {
    seq(|cs|, i requires 0 <= i < |cs| =>
      if i < k then Coroutine(cs[i].request, if cs[i].remaining > 0 then cs[i].remaining - 1 else 0) else cs[i])
  }

  /** A pass behind its first k resumes: nothing else has changed, the counter has counted them in its eight bits,
      and both iterators stand behind the last one, or the pass is over. */
  ghost predicate Walked(s: State, k: nat, t: State) {
    && t.coroutines == OneEach(s.coroutines, k) && t.pointers == s.pointers
    && t.counter == (s.counter + k) % 256 && t.limit == s.limit && t.added == s.added && t.finished == s.finished
    && (k > 0 ==> t.iterator_ == k && t.pointerIterator == k && (t.inPass <==> k < |s.coroutines|))
    && (k == 0 ==> t == s)
  }

  /** As long as the counter does not exceed the limit, the walk goes from one coroutine to the next. */
  lemma {:induction false} OneResumeEach(s: State, k: nat)
    requires Ready(s) && s.counter + |s.coroutines| <= 256 && k <= |s.coroutines|
    requires k == 0 || s.counter + k - 1 <= s.limit
    ensures Run(s, Resumes(k)).Some? && Walked(s, k, Run(s, Resumes(k)).value)
  {
    hide Run, Resumes, Resumed, Lockstep;
    if k == 0 {
      NoResumes(s);
      assert OneEach(s.coroutines, 0) == s.coroutines;
    } else {
      OneResumeEach(s, k - 1);
      OneMoreResume(s, k);
      var t := Run(s, Resumes(k - 1)).value;
      LockstepDrains(s, k - 1);
      StepForward(s, k - 1, t);
    }
  }

  /** The next resume is that of coroutine k, which goes on. */
  lemma Next(s: State, k: nat, t: State) returns (u: State)
    requires Ready(s) && k < |s.coroutines| && Walked(s, k, t) && Lockstep(t)
    ensures Resumed(t) == Some(u) && u == Advanced(t.(inPass := true, iterator_ := k, pointerIterator := k))
    ensures Positioned(t).iterator_ == k
  {
    hide Sound, Advanced, Erased;
    var p := Positioned(t);
    assert p.iterator_ == p.pointerIterator == k && p.coroutines[k] == s.coroutines[k];
    assert p.(inPass := true) == t.(inPass := true, iterator_ := k, pointerIterator := k);
    u := Advanced(p.(inPass := true));
    AdvancedFrom(p);
  }

  lemma AdvancedFrom(p: State)
    requires p.iterator_ < |p.coroutines|
    ensures Advanced(p) == Advanced(p.(inPass := true))
  {
  }

  lemma StepForward(s: State, k: nat, t: State)
    requires Ready(s) && k < |s.coroutines| && Walked(s, k, t) && Lockstep(t)
    requires s.counter + |s.coroutines| <= 256 && s.counter + k <= s.limit
    ensures Resumed(t).Some? && Walked(s, k + 1, Resumed(t).value)
  {
    var u := Next(s, k, t);
    assert u.coroutines == OneEach(s.coroutines, k + 1);
  }

  /** Behind a restart the last coroutine waits at least until the walk has come back to it. */
  lemma {:induction false} LastWaits(s: State, m: nat)
    requires s.inPass && s.iterator_ + m < |s.coroutines| && Run(s, Resumes(m)).Some?
    ensures var t := Run(s, Resumes(m)).value;
      t.inPass && t.iterator_ + |s.coroutines| <= |t.coroutines| + s.iterator_ + m && t.iterator_ < |t.coroutines|
      && t.coroutines[|t.coroutines| - 1] == s.coroutines[|s.coroutines| - 1]
  {
    hide Run, Resumes, Resumed;
    if m == 0 {
      NoResumes(s);
    } else {
      OneMoreResume(s, m);
      LastWaits(s, m - 1);
      LastNotResumed(Run(s, Resumes(m - 1)).value);
    }
  }

  lemma LastNotResumed(s: State)
    requires s.inPass && s.iterator_ + 1 < |s.coroutines| && Resumed(s).Some?
    ensures var t := Resumed(s).value;
      t.inPass && t.iterator_ + |s.coroutines| <= |t.coroutines| + s.iterator_ + 1 && t.iterator_ < |t.coroutines|
      && t.coroutines[|t.coroutines| - 1] == s.coroutines[|s.coroutines| - 1]
  {
  }

  lemma {:induction false} RunsInTwo(s: State, a: nat, b: nat)
    requires Run(s, Resumes(a)).Some?
    ensures Run(s, Resumes(a + b)) == Run(Run(s, Resumes(a)).value, Resumes(b))
  {
    hide Run, Resumes, Resumed;
    var t := Run(s, Resumes(a)).value;
    if b == 0 {
      NoResumes(t);
    } else {
      RunsInTwo(s, a, b - 1);
      OneMoreResume(s, a + b);
      OneMoreResume(t, b);
    }
  }

  /** When the counter does not exceed the limit in front of the last of n coroutines, n resumes are one for each. */
  lemma EveryoneIsResumed(s: State)
    requires Ready(s) && s.coroutines != [] && s.counter + |s.coroutines| <= 256
    requires |s.coroutines| <= 1 || s.counter + |s.coroutines| - 2 <= s.limit
    ensures var n := |s.coroutines|;
      Run(s, Resumes(n)).Some? && Run(s, Resumes(n)).value.coroutines == OneEach(s.coroutines, n)
  {
    hide Run, Resumes, Resumed, Lockstep, Walked, OneEach;
    var n := |s.coroutines|;
    OneResumeEach(s, n - 1);
    LockstepDrains(s, n - 1);
    OneMoreResume(s, n);
    LastStep(s, Run(s, Resumes(n - 1)).value);
  }

  /** Otherwise the walk goes back to the first one in between, and the last one still waits behind n resumes. */
  lemma LastIsNotResumed(s: State)
    requires Ready(s) && s.counter + |s.coroutines| <= 256
    requires |s.coroutines| > 1 && s.counter + |s.coroutines| - 2 > s.limit
    ensures var n := |s.coroutines|;
      Run(s, Resumes(n)).Some?
      && var cs := Run(s, Resumes(n)).value.coroutines; cs != [] && cs[|cs| - 1] == s.coroutines[n - 1]
  {
    hide Run, Resumes, Resumed, Lockstep, Walked;
    var n, j := |s.coroutines|, if s.counter > s.limit then 0 else s.limit - s.counter + 1;
    OneResumeEach(s, j);
    LockstepDrains(s, j);
    OneMoreResume(s, j + 1);
    var u := BackToFirst(s, j, Run(s, Resumes(j)).value);
    LockstepDrains(s, n);
    RunsInTwo(s, j + 1, n - j - 1);
    LastWaits(u, n - j - 1);
  }

  /** So n resumes are one for each exactly then. */
  lemma OneResumeEachIff(s: State)
    requires Ready(s) && s.coroutines != [] && s.counter + |s.coroutines| <= 256
    ensures var n := |s.coroutines|;
      Run(s, Resumes(n)).Some?
      && (Run(s, Resumes(n)).value.coroutines == OneEach(s.coroutines, n)
          <==> n <= 1 || s.counter + n - 2 <= s.limit)
  {
    hide Run, Resumes, Lockstep;
    var n := |s.coroutines|;
    assert s.coroutines[n - 1].remaining > 1;
    hide Ready;
    if n <= 1 || s.counter + n - 2 <= s.limit {
      EveryoneIsResumed(s);
    } else {
      LastIsNotResumed(s);
      assert OneEach(s.coroutines, n)[n - 1].remaining == s.coroutines[n - 1].remaining - 1;
    }
  }

  /** Over the limit the walk goes back. */
  lemma BackToFirst(s: State, j: nat, t: State) returns (u: State)
    requires Ready(s) && j + 1 < |s.coroutines| && Walked(s, j, t) && Lockstep(t)
    requires s.counter + |s.coroutines| <= 256 && s.counter + j > s.limit
    ensures Resumed(t) == Some(u) && u.inPass && u.iterator_ == 0 && |u.coroutines| == |s.coroutines|
    ensures u.coroutines[|s.coroutines| - 1] == s.coroutines[|s.coroutines| - 1]
  {
    u := Next(s, j, t);
  }

  /** The last coroutine of a pass gets its resume whatever the counter says. */
  lemma LastStep(s: State, t: State)
    requires Ready(s) && s.coroutines != [] && Walked(s, |s.coroutines| - 1, t) && Lockstep(t)
    ensures Resumed(t).Some? && Resumed(t).value.coroutines == OneEach(s.coroutines, |s.coroutines|)
  {
    var u := Next(s, |s.coroutines| - 1, t);
    assert u.coroutines == OneEach(s.coroutines, |s.coroutines|);
  }

  /** The last resume of a coroutine takes it off, with its pointer, and nothing else; the next one is then where it
      stood, or the first one, and the counter is one less in its eight bits. */
  lemma FinishedIsTakenOff(s: State)
    requires Lockstep(s) && s.inPass && s.coroutines[s.iterator_].remaining == 1
    ensures Resumed(s).Some?
    ensures var i, t := s.iterator_, Resumed(s).value;
      t.coroutines == s.coroutines[..i] + s.coroutines[i + 1..] && t.pointers == s.pointers[..i] + s.pointers[i + 1..]
      && t.finished == s.finished + [s.pointers[i]] && t.limit == s.limit
      && t.iterator_ == t.pointerIterator == (if i + 1 < |s.coroutines| then i else 0)
      && (t.inPass <==> |s.coroutines| > 1)
      && (t.counter + 1) % 256 == s.counter % 256 && t.counter < 256
  {
    hide Sound, Erased;
    assert Resumed(s) == Some(Erased(s));
    hide Resumed, Lockstep;
    ErasedParts(s, s.iterator_);
  }

  lemma ErasedParts(s: State, i: nat)
    requires |s.coroutines| == |s.pointers| && i == s.iterator_ == s.pointerIterator < |s.pointers|
    ensures var t := Erased(s);
      t.coroutines == s.coroutines[..i] + s.coroutines[i + 1..] && t.pointers == s.pointers[..i] + s.pointers[i + 1..]
      && t.finished == s.finished + [s.coroutines[i].request] && t.limit == s.limit
      && t.iterator_ == t.pointerIterator == (if i + 1 < |s.coroutines| then i else 0)
      && (t.inPass <==> |s.coroutines| > 1)
      && (t.counter + 1) % 256 == s.counter % 256 && t.counter < 256
  {
  }
}
