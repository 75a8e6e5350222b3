/** When exactly the soft nudge lets a call past its block limit: for each of the two limits, the
    configurations under which some turn overshoots. */
module NudgeOvershoot {
  import opened Tasks
  import opened ToolGuardrails
  import opened GuardrailTheorems

  function Min(a: int, b: int): int { if a < b then a else b }

  /** The most attempts a full doom-loop tail holds. */
  function Window(doom: DoomSettings): nat { Min(doom.threshold, HISTORY_LIMIT) }

  /** Thresholds at which a nudge can become due at all. */
  predicate Nudges(doom: DoomSettings) {
    doom.softNudge && 2 <= doom.threshold <= HISTORY_LIMIT + 1
  }

  /** A nudge can come due, and the failures in a row that must precede it at the limit do not halt
      the tool: as many as the limit asks for, but never more than fill the tail up to the nudge.
      With a limit below one, the very first attempt has to be the nudged one. */
  predicate ExactGivesWay(cfg: Config, doom: DoomSettings) {
    && Nudges(doom)
    && if cfg.exactFailureBlockAfter >= 1
       then Min(cfg.exactFailureBlockAfter, Window(doom) - 1) < Max(cfg.sameToolFailureHaltAfter, 1)
       else doom.threshold == 2
  }

  /** A limit of two or more is overshot freely; a limit of one only if enough failures may come first. */
  predicate ProgressGivesWay(cfg: Config, doom: DoomSettings) {
    && Nudges(doom) && cfg.exactFailureBlockAfter >= 1
    && (cfg.noProgressBlockAfter >= 2
        || Max(doom.threshold - 3, 0) < Min(cfg.exactFailureBlockAfter, Max(cfg.sameToolFailureHaltAfter, 1)))
  }

  // ---------------------------------------------------------------- runs of one call

  /** How many attempts in a row, up to the last one, are `sig`. */
  function RunLength(attempts: seq<Signature>, sig: Signature): (r: nat)
    ensures r <= |attempts|
    ensures forall i :: |attempts| - r <= i < |attempts| ==> attempts[i] == sig
    ensures r < |attempts| ==> attempts[|attempts|-r-1] != sig
  {
    if attempts == [] || attempts[|attempts|-1] != sig then 0 else RunLength(attempts[..|attempts|-1], sig) + 1
  }

  lemma RunStep(attempts: seq<Signature>, x: Signature, sig: Signature)
    ensures RunLength(attempts + [x], sig) == if x == sig then RunLength(attempts, sig) + 1 else 0
  {
    assert (attempts + [x])[..|attempts|] == attempts;
  }

  function TailSize(doom: DoomSettings, attempts: seq<Signature>): nat {
    Min(|attempts| + 1, Window(doom))
  }

  /** The tail at the next attempt is all one call exactly when the run fills it. */
  lemma TailIsRun(doom: DoomSettings, attempts: seq<Signature>, sig: Signature)
    requires doom.threshold >= 2
    ensures |Tail(doom, attempts + [sig])| == TailSize(doom, attempts)
    ensures AllSame(Tail(doom, attempts + [sig])) <==> TailSize(doom, attempts) <= RunLength(attempts, sig) + 1
  {
    var now, r := attempts + [sig], RunLength(attempts, sig);
    var tail := Tail(doom, now);
    var n := |tail|;
    assert tail == now[|now|-n..];
    assert tail[n-1] == sig;
    if n <= r + 1 {
      forall i | 0 <= i < n ensures tail[i] == sig { assert tail[i] == now[|now|-n+i]; }
    } else {
      assert tail[n-r-2] == now[|now|-r-2] == attempts[|attempts|-r-1];
      assert tail[n-r-2] != sig;
    }
  }

  lemma DueIff(doom: DoomSettings, attempts: seq<Signature>, sig: Signature)
    requires Nudges(doom)
    ensures NudgeDue(doom, attempts + [sig]) <==>
            doom.threshold - 1 <= TailSize(doom, attempts) <= RunLength(attempts, sig) + 1
    ensures Doomed(doom, attempts + [sig]) ==> NudgeDue(doom, attempts + [sig])
  {
    TailIsRun(doom, attempts, sig);
  }

  // ---------------------------------------------------------------- one attempt, seen from outside

  /** What an attempt leaves behind: it is on the attempt log, and when it was executed on the outcome
      log too; what was executed had just been nudged or was under both limits; and an attempt that
      is neither executed nor halting is one that has been nudged before. */
  lemma TryShape(cfg: Config, doom: DoomSettings, t: Turn, o: Outcome)
    requires cfg.hardStopEnabled && t.halt.None? && Nudges(doom)
    ensures var u, due := Try(cfg, doom, t, o), NudgeDue(doom, t.attempts + [o.sig]);
            var nudged := WasNudged(doom, t.attempts, o.sig);
            && u.attempts == t.attempts + [o.sig]
            && (u.log == t.log || u.log == t.log + [o])
            && (u.log == t.log + [o] ==>
                  || (due && !nudged)
                  || (&& ExactFailures(t.log, o.sig) < cfg.exactFailureBlockAfter
                      && (IsIdempotent(o.sig.tool) ==>
                            Repeats(t.log, o.sig) == 0 || Repeats(t.log, o.sig) < cfg.noProgressBlockAfter)))
            && (u.log == t.log && u.halt.None? ==> nudged)
  {
    assert t.log + [o] != t.log by { assert |t.log + [o]| == |t.log| + 1; }
    DueIff(doom, t.attempts, o.sig);
    hide NudgeDue, WasNudged, Doomed, ExactFailures, Repeats, ToolFailures, IsIdempotent, AfterDecision, Nudges;
  }

  lemma DriveStep(cfg: Config, doom: DoomSettings, plan: seq<Outcome>)
    requires plan != []
    ensures var t := Drive(cfg, doom, plan[..|plan|-1]);
            Drive(cfg, doom, plan) == if t.halt.Some? then t else Try(cfg, doom, t, plan[|plan|-1])
  {
  }

  // -------------------------------- overshooting the exact-failure limit needs the condition

  ghost predicate KeepsUp(doom: DoomSettings, t: Turn, s: Signature) {
    !WasNudged(doom, t.attempts, s) ==>
      ToolFailures(t.log, s.tool) >= Min(ExactFailures(t.log, s), RunLength(t.attempts, s))
  }

  /** As long as a call has not been nudged, the failures of its tool keep up with its run. */
  ghost predicate Paced(doom: DoomSettings, t: Turn) {
    |t.log| <= |t.attempts| && (t.halt.None? ==> forall s :: KeepsUp(doom, t, s))
  }

  lemma StaysKeptUp(cfg: Config, doom: DoomSettings, t: Turn, o: Outcome, s: Signature)
    requires cfg.hardStopEnabled && Nudges(doom) && t.halt.None? && Try(cfg, doom, t, o).halt.None?
    requires KeepsUp(doom, t, s)
    ensures KeepsUp(doom, Try(cfg, doom, t, o), s)
  {
    TryShape(cfg, doom, t, o);
    hide Try, NudgeDue, WasNudged, ExactFailures, Repeats, ToolFailures, IsIdempotent, RunLength, Nudges;
    NudgedStep(doom, t.attempts, o.sig, s);
    RunStep(t.attempts, o.sig, s);
    ExactStep(t.log, o, s);
    ToolStep(t.log, o, s.tool);
  }

  lemma TryStaysPaced(cfg: Config, doom: DoomSettings, t: Turn, o: Outcome)
    requires cfg.hardStopEnabled && Nudges(doom) && t.halt.None? && Paced(doom, t)
    ensures Paced(doom, Try(cfg, doom, t, o))
  {
    TryShape(cfg, doom, t, o);
    hide Try, NudgeDue, WasNudged, ExactFailures, Repeats, ToolFailures, IsIdempotent, RunLength, Nudges, KeepsUp;
    if Try(cfg, doom, t, o).halt.None? {
      forall s { StaysKeptUp(cfg, doom, t, o, s); }
    }
  }

  lemma StartsPaced(doom: DoomSettings)
    ensures Paced(doom, Turn([], [], None))
  {
    NothingCounted();
  }

  lemma {:induction false} DriveIsPaced(cfg: Config, doom: DoomSettings, plan: seq<Outcome>)
    requires cfg.hardStopEnabled && Nudges(doom)
    ensures Paced(doom, Drive(cfg, doom, plan))
  {
    hide Nudges, Paced, Try;
    if plan == [] {
      StartsPaced(doom);
    } else {
      DriveIsPaced(cfg, doom, plan[..|plan|-1]);
      var t := Drive(cfg, doom, plan[..|plan|-1]);
      if t.halt.None? { TryStaysPaced(cfg, doom, t, plan[|plan|-1]); }
    }
  }

  lemma FirstIsQuiet(doom: DoomSettings, sig: Signature)
    requires Nudges(doom) && doom.threshold > 2
    ensures !NudgeDue(doom, [] + [sig]) && !WasNudged(doom, [], sig)
  {
    DueIff(doom, [], sig);
  }

  /** With a block limit below one and a threshold above two, the first attempt ends the turn. */
  lemma {:induction false} NothingRuns(cfg: Config, doom: DoomSettings, plan: seq<Outcome>)
    requires cfg.hardStopEnabled && Nudges(doom) && cfg.exactFailureBlockAfter <= 0 && doom.threshold > 2
    ensures var t := Drive(cfg, doom, plan); t.log == [] && (t.attempts == [] || t.halt.Some?)
  {
    if plan != [] {
      var t, o := Drive(cfg, doom, plan[..|plan|-1]), plan[|plan|-1];
      NothingRuns(cfg, doom, plan[..|plan|-1]);
      DriveStep(cfg, doom, plan);
      if t.halt.None? {
        TryShape(cfg, doom, t, o);
        FirstIsQuiet(doom, o.sig);
      }
    }
  }

  lemma {:induction false} RunsFit(events: seq<Outcome>)
    ensures FailureRun(events) <= |events| && StaleRun(events) <= |events|
  {
    if events != [] { RunsFit(events[..|events|-1]); }
  }

  lemma {:induction false} ExactAtMostLog(log: seq<Outcome>, sig: Signature)
    ensures ExactFailures(log, sig) <= |EventsOf(log, sig)| <= |log|
    ensures Repeats(log, sig) <= |EventsOf(log, sig)|
  {
    RunsFit(EventsOf(log, sig));
    if log != [] { ExactAtMostLog(log[..|log|-1], sig); }
  }

  lemma EmptyDrive(cfg: Config, doom: DoomSettings)
    ensures Drive(cfg, doom, []) == Turn([], [], None)
  {
  }

  /** A first nudge that comes due at the limit. */
  lemma NudgedAtLimit(cfg: Config, doom: DoomSettings, plan: seq<Outcome>, sig: Signature)
    requires cfg.hardStopEnabled && Nudges(doom) && Drive(cfg, doom, plan).halt.None?
    requires ExactFailures(Drive(cfg, doom, plan).log, sig) == Max(cfg.exactFailureBlockAfter, 0)
    requires NudgeDue(doom, Drive(cfg, doom, plan).attempts + [sig])
    requires !WasNudged(doom, Drive(cfg, doom, plan).attempts, sig)
    ensures ExactGivesWay(cfg, doom)
  {
    hide NudgeDue, WasNudged, Doomed, ExactFailures, Repeats, ToolFailures, IsIdempotent, Drive;
    var t := Drive(cfg, doom, plan);
    DueIff(doom, t.attempts, sig);
    if cfg.exactFailureBlockAfter >= 1 {
      DriveIsPaced(cfg, doom, plan);
      assert KeepsUp(doom, t, sig);
      RetriesAreBounded(cfg, doom, plan);
      ExactAtMostLog(t.log, sig);
    } else if doom.threshold > 2 {
      NothingRuns(cfg, doom, plan);
    }
  }

  lemma {:induction false} ExactOvershootNeeds(cfg: Config, doom: DoomSettings, plan: seq<Outcome>, sig: Signature)
    requires cfg.hardStopEnabled
    requires ExactFailures(Drive(cfg, doom, plan).log, sig) > Max(cfg.exactFailureBlockAfter, 0)
    ensures ExactGivesWay(cfg, doom)
  {
    hide Drive, Try, NudgeDue, WasNudged, Doomed, ExactFailures, Repeats, ToolFailures, IsIdempotent, Bounded, Paced;
    if !Nudges(doom) {
      LimitsAreExactWithoutNudge(cfg, doom, plan, sig);
    } else if plan == [] {
      EmptyDrive(cfg, doom);
      NothingCounted();
    } else {
      var front, o := plan[..|plan|-1], plan[|plan|-1];
      var t := Drive(cfg, doom, front);
      DriveStep(cfg, doom, plan);
      if ExactFailures(t.log, sig) > Max(cfg.exactFailureBlockAfter, 0) {
        ExactOvershootNeeds(cfg, doom, front, sig);
      } else {
        TryShape(cfg, doom, t, o);
        ExactStep(t.log, o, sig);
        assert o.sig == sig && ExactFailures(t.log, sig) == Max(cfg.exactFailureBlockAfter, 0);
        NudgedAtLimit(cfg, doom, front, sig);
      }
    }
  }

  // -------------------------------- overshooting the no-progress limit needs the condition

  /** Below a block limit of one, only nudges are executed, so every call at most once. */
  ghost predicate OnceEach(doom: DoomSettings, t: Turn) {
    forall s :: |EventsOf(t.log, s)| <= Grace(doom, t, s)
  }

  lemma TryStaysOnceEach(cfg: Config, doom: DoomSettings, t: Turn, o: Outcome)
    requires cfg.hardStopEnabled && Nudges(doom) && cfg.exactFailureBlockAfter <= 0
    requires t.halt.None? && OnceEach(doom, t)
    ensures OnceEach(doom, Try(cfg, doom, t, o))
  {
    TryShape(cfg, doom, t, o);
    hide Try, NudgeDue, WasNudged, ExactFailures, Repeats, IsIdempotent, Nudges, EventsOf, ToolEventsOf;
    var u := Try(cfg, doom, t, o);
    forall s ensures |EventsOf(u.log, s)| <= Grace(doom, u, s) {
      NudgedStep(doom, t.attempts, o.sig, s);
      EventsStep(t.log, o, s);
    }
  }

  lemma {:induction false} DriveIsOnceEach(cfg: Config, doom: DoomSettings, plan: seq<Outcome>)
    requires cfg.hardStopEnabled && Nudges(doom) && cfg.exactFailureBlockAfter <= 0
    ensures OnceEach(doom, Drive(cfg, doom, plan))
  {
    if plan == [] {
      EmptyDrive(cfg, doom);
    } else {
      hide OnceEach, Try, Drive, Nudges;
      DriveIsOnceEach(cfg, doom, plan[..|plan|-1]);
      var t := Drive(cfg, doom, plan[..|plan|-1]);
      DriveStep(cfg, doom, plan);
      if t.halt.None? { TryStaysOnceEach(cfg, doom, t, plan[|plan|-1]); }
    }
  }

  /** Under a no-progress limit of one, the run of a call not yet nudged is failures first, and then
      one success at most. */
  ghost predicate FailsFirst(cfg: Config, t: Turn, s: Signature) {
    var r := RunLength(t.attempts, s);
    && (Repeats(t.log, s) == 0 ==> r <= ExactFailures(t.log, s) && r <= ToolFailures(t.log, s.tool))
    && (Repeats(t.log, s) > 0 && r > 0 ==>
          r - 1 < Min(cfg.exactFailureBlockAfter, Max(cfg.sameToolFailureHaltAfter, 1)))
  }

  ghost predicate Ordered(cfg: Config, doom: DoomSettings, t: Turn) {
    t.halt.None? ==>
      forall s: Signature :: IsIdempotent(s.tool) && !WasNudged(doom, t.attempts, s) ==> FailsFirst(cfg, t, s)
  }

  lemma FailsFirstNext(cfg: Config, t: Turn, u: Turn, o: Outcome, s: Signature)
    requires u.log == t.log + [o] && o.sig == s && Repeats(t.log, s) == 0
    requires RunLength(u.attempts, s) == RunLength(t.attempts, s) + 1
    requires RunLength(t.attempts, s) <= ExactFailures(t.log, s) < cfg.exactFailureBlockAfter
    requires RunLength(t.attempts, s) <= ToolFailures(t.log, s.tool) < Max(cfg.sameToolFailureHaltAfter, 1)
    ensures FailsFirst(cfg, u, s)
  {
    hide ExactFailures, Repeats, ToolFailures, RunLength, LastHash;
    ExactStep(t.log, o, s);
    ToolStep(t.log, o, s.tool);
    RepeatsStep(t.log, o, s);
  }

  lemma StaysFailingFirst(cfg: Config, doom: DoomSettings, t: Turn, o: Outcome, s: Signature)
    requires cfg.hardStopEnabled && Nudges(doom) && cfg.noProgressBlockAfter <= 1 && IsIdempotent(s.tool)
    requires t.halt.None? && Try(cfg, doom, t, o).halt.None?
    requires ToolFailures(t.log, s.tool) < Max(cfg.sameToolFailureHaltAfter, 1)
    requires FailsFirst(cfg, t, s) && !WasNudged(doom, Try(cfg, doom, t, o).attempts, s)
    ensures FailsFirst(cfg, Try(cfg, doom, t, o), s)
  {
    TryShape(cfg, doom, t, o);
    hide Try, NudgeDue, WasNudged, ExactFailures, Repeats, ToolFailures, IsIdempotent, RunLength, Nudges, LastHash;
    var u := Try(cfg, doom, t, o);
    NudgedStep(doom, t.attempts, o.sig, s);
    RunStep(t.attempts, o.sig, s);
    if o.sig == s {
      FailsFirstNext(cfg, t, u, o, s);
    } else {
      RepeatsStep(t.log, o, s);
    }
  }

  lemma TryStaysOrdered(cfg: Config, doom: DoomSettings, t: Turn, o: Outcome)
    requires cfg.hardStopEnabled && Nudges(doom) && cfg.noProgressBlockAfter <= 1
    requires t.halt.None? && Ordered(cfg, doom, t) && Bounded(cfg, doom, t)
    ensures Ordered(cfg, doom, Try(cfg, doom, t, o))
  {
    TryShape(cfg, doom, t, o);
    hide Try, NudgeDue, WasNudged, ExactFailures, Repeats, ToolFailures, IsIdempotent, RunLength, Nudges, FailsFirst;
    var u := Try(cfg, doom, t, o);
    if u.halt.None? {
      forall s: Signature | IsIdempotent(s.tool) && !WasNudged(doom, u.attempts, s)
        ensures FailsFirst(cfg, u, s)
      {
        NudgedStep(doom, t.attempts, o.sig, s);
        StaysFailingFirst(cfg, doom, t, o, s);
      }
    }
  }

  lemma StartsOrdered(cfg: Config, doom: DoomSettings)
    ensures Ordered(cfg, doom, Turn([], [], None))
  {
    NothingCounted();
    hide IsIdempotent;
  }

  lemma {:induction false} DriveIsOrdered(cfg: Config, doom: DoomSettings, plan: seq<Outcome>)
    requires cfg.hardStopEnabled && Nudges(doom) && cfg.noProgressBlockAfter <= 1
    ensures Ordered(cfg, doom, Drive(cfg, doom, plan))
  {
    hide Nudges, Ordered, Bounded, Try;
    if plan == [] {
      StartsOrdered(cfg, doom);
    } else {
      DriveIsOrdered(cfg, doom, plan[..|plan|-1]);
      RetriesAreBounded(cfg, doom, plan[..|plan|-1]);
      var t := Drive(cfg, doom, plan[..|plan|-1]);
      if t.halt.None? { TryStaysOrdered(cfg, doom, t, plan[|plan|-1]); }
    }
  }

  lemma {:induction false} ProgressOvershootNeeds(cfg: Config, doom: DoomSettings, plan: seq<Outcome>, sig: Signature)
    requires cfg.hardStopEnabled && IsIdempotent(sig.tool)
    requires Repeats(Drive(cfg, doom, plan).log, sig) > Max(cfg.noProgressBlockAfter, 1)
    ensures ProgressGivesWay(cfg, doom)
  {
    hide Drive, Try, NudgeDue, WasNudged, Doomed, ExactFailures, Repeats, ToolFailures, IsIdempotent, EventsOf;
    hide LastHash;
    if !Nudges(doom) {
      LimitsAreExactWithoutNudge(cfg, doom, plan, sig);
    } else if cfg.exactFailureBlockAfter <= 0 {
      DriveIsOnceEach(cfg, doom, plan);
      ExactAtMostLog(Drive(cfg, doom, plan).log, sig);
    } else if plan == [] {
      EmptyDrive(cfg, doom);
      NothingCounted();
    } else {
      var front, o := plan[..|plan|-1], plan[|plan|-1];
      var t := Drive(cfg, doom, front);
      DriveStep(cfg, doom, plan);
      if Repeats(t.log, sig) > Max(cfg.noProgressBlockAfter, 1) {
        ProgressOvershootNeeds(cfg, doom, front, sig);
      } else if cfg.noProgressBlockAfter <= 1 {
        TryShape(cfg, doom, t, o);
        RepeatsStep(t.log, o, sig);
        assert o.sig == sig && Repeats(t.log, sig) == 1;
        DueIff(doom, t.attempts, sig);
        DriveIsOrdered(cfg, doom, front);
        assert FailsFirst(cfg, t, sig);
      }
    }
  }

  // ---------------------------------------------------------------- building a turn that overshoots

  ghost predicate Reached(cfg: Config, doom: DoomSettings, t: Turn) {
    exists plan :: Drive(cfg, doom, plan) == t
  }

  lemma ReachedNext(cfg: Config, doom: DoomSettings, t: Turn, o: Outcome)
    requires Reached(cfg, doom, t) && t.halt.None?
    ensures Reached(cfg, doom, Try(cfg, doom, t, o))
  {
    hide Try;
    var plan :| Drive(cfg, doom, plan) == t;
    assert (plan + [o])[..|plan|] == plan;
    DriveStep(cfg, doom, plan + [o]);
  }

  predicate Due(doom: DoomSettings, attempts: seq<Signature>, sig: Signature) {
    doom.threshold - 1 <= TailSize(doom, attempts) <= RunLength(attempts, sig) + 1
  }

  /** A call that is due its first nudge, or not due and under both limits, is executed. */
  lemma Executes(cfg: Config, doom: DoomSettings, t: Turn, o: Outcome)
    requires cfg.hardStopEnabled && t.halt.None? && Nudges(doom)
    requires if Due(doom, t.attempts, o.sig) then !WasNudged(doom, t.attempts, o.sig)
             else && ExactFailures(t.log, o.sig) < cfg.exactFailureBlockAfter
                  && (IsIdempotent(o.sig.tool) ==>
                        Repeats(t.log, o.sig) == 0 || Repeats(t.log, o.sig) < cfg.noProgressBlockAfter)
    ensures var u := Try(cfg, doom, t, o);
            && u.attempts == t.attempts + [o.sig] && u.log == t.log + [o]
            && (!o.failed || ToolFailures(u.log, o.sig.tool) < cfg.sameToolFailureHaltAfter ==> u.halt.None?)
  {
    DueIff(doom, t.attempts, o.sig);
    assert Due(doom, t.attempts, o.sig) <==> NudgeDue(doom, t.attempts + [o.sig]);
    hide NudgeDue, WasNudged, Doomed, ExactFailures, Repeats, ToolFailures, IsIdempotent, Nudges, Due;
  }

  /** A turn under way in which `s` has not been nudged and `x` has no failure on record. */
  ghost predicate Live(cfg: Config, doom: DoomSettings, t: Turn, s: Signature, x: Signature) {
    Reached(cfg, doom, t) && t.halt.None? && !WasNudged(doom, t.attempts, s) && ExactFailures(t.log, x) == 0
  }

  /** `u` is `t` after one more executed call. */
  ghost predicate Follows(t: Turn, o: Outcome, u: Turn) {
    u.attempts == t.attempts + [o.sig] && u.log == t.log + [o]
  }

  lemma QuietStep(cfg: Config, doom: DoomSettings, t: Turn, s: Signature, x: Signature, o: Outcome) returns (u: Turn)
    requires cfg.hardStopEnabled && Nudges(doom) && Live(cfg, doom, t, s, x) && s != x && o.sig == s
    requires !Due(doom, t.attempts, s) && ExactFailures(t.log, s) < cfg.exactFailureBlockAfter
    requires IsIdempotent(s.tool) ==> Repeats(t.log, s) == 0 || Repeats(t.log, s) < cfg.noProgressBlockAfter
    requires o.failed ==> ToolFailures(t.log, s.tool) + 1 < cfg.sameToolFailureHaltAfter
    ensures Live(cfg, doom, u, s, x) && Follows(t, o, u)
    ensures RunLength(u.attempts, s) == RunLength(t.attempts, s) + 1
  {
    DueIff(doom, t.attempts, s);
    assert !NudgeDue(doom, t.attempts + [s]);
    hide NudgeDue, WasNudged, Doomed, ExactFailures, Repeats, ToolFailures, IsIdempotent, Nudges, Due, Try, Reached;
    hide RunLength;
    u := Try(cfg, doom, t, o);
    ReachedNext(cfg, doom, t, o);
    ToolStep(t.log, o, s.tool);
    Executes(cfg, doom, t, o);
    ExactStep(t.log, o, x);
    NudgedStep(doom, t.attempts, s, s);
    RunStep(t.attempts, s, s);
  }

  /** `x` succeeds in between and ends the run of `s`. */
  lemma BreakStep(cfg: Config, doom: DoomSettings, t: Turn, s: Signature, x: Signature, o: Outcome) returns (u: Turn)
    requires cfg.hardStopEnabled && Nudges(doom) && Live(cfg, doom, t, s, x) && s != x
    requires o.sig == x && !o.failed && !IsIdempotent(x.tool) && cfg.exactFailureBlockAfter >= 1
    requires RunLength(t.attempts, s) > 0 || t.attempts == []
    requires t.attempts == [] ==> !WasNudged(doom, t.attempts, x)
    ensures Live(cfg, doom, u, s, x) && Follows(t, o, u) && RunLength(u.attempts, s) == 0
  {
    if t.attempts != [] {
      assert t.attempts[|t.attempts|-1] == s;
      assert RunLength(t.attempts, x) == 0 && !Due(doom, t.attempts, x);
    }
    hide NudgeDue, WasNudged, Doomed, ExactFailures, Repeats, ToolFailures, IsIdempotent, Nudges, Due, Try, Reached;
    hide RunLength;
    u := Try(cfg, doom, t, o);
    ReachedNext(cfg, doom, t, o);
    Executes(cfg, doom, t, o);
    ExactStep(t.log, o, x);
    NudgedStep(doom, t.attempts, x, s);
    RunStep(t.attempts, x, s);
  }

  /** The nudge comes due, and the call is executed whatever its counters say. */
  lemma NudgeStep(cfg: Config, doom: DoomSettings, t: Turn, s: Signature, x: Signature, o: Outcome) returns (u: Turn)
    requires cfg.hardStopEnabled && Nudges(doom) && Live(cfg, doom, t, s, x) && o.sig == s && Due(doom, t.attempts, s)
    ensures Reached(cfg, doom, u) && Follows(t, o, u)
  {
    hide NudgeDue, WasNudged, ExactFailures, Repeats, ToolFailures, IsIdempotent, Nudges, Due, Try, Reached;
    u := Try(cfg, doom, t, o);
    ReachedNext(cfg, doom, t, o);
    Executes(cfg, doom, t, o);
  }

  lemma EmptyTurn(cfg: Config, doom: DoomSettings, s: Signature, x: Signature)
    ensures Live(cfg, doom, Turn([], [], None), s, x) && RunLength([], s) == 0
    ensures ExactFailures([], s) == 0 && ToolFailures([], s.tool) == 0 && Repeats([], s) == 0
    ensures !WasNudged(doom, [], x)
  {
    EmptyDrive(cfg, doom);
    NothingCounted();
  }

  /** The turn opens with a successful call of `x`. */
  lemma Opening(cfg: Config, doom: DoomSettings, s: Signature, x: Signature) returns (t: Turn)
    requires cfg.hardStopEnabled && Nudges(doom) && s != x && !IsIdempotent(x.tool) && cfg.exactFailureBlockAfter >= 1
    ensures Live(cfg, doom, t, s, x) && |t.attempts| == 1 && RunLength(t.attempts, s) == 0
    ensures ExactFailures(t.log, s) == 0 && ToolFailures(t.log, s.tool) == 0 && Repeats(t.log, s) == 0
  {
    hide WasNudged, ExactFailures, Repeats, ToolFailures, IsIdempotent, Nudges, LastHash, Live, RunLength;
    var o := Outcome(x, false, "");
    EmptyTurn(cfg, doom, s, x);
    t := BreakStep(cfg, doom, Turn([], [], None), s, x, o);
    ExactStep([], o, s);
    ToolStep([], o, s.tool);
    RepeatsStep([], o, s);
  }

  lemma ShortNamesAreNotIdempotent(tool: string)
    requires |tool| <= 1
    ensures !IsIdempotent(tool)
  {
    assert forall t :: t in IDEMPOTENT_TOOLS ==> |t| > 1;
  }

  /** Failing calls of `s`, each followed by a successful sibling, raise the one counter only. */
  lemma SpreadFailures(cfg: Config, doom: DoomSettings, t: Turn, s: Signature, x: Signature, k: nat) returns (u: Turn)
    requires cfg.hardStopEnabled && Nudges(doom) && Live(cfg, doom, t, s, x) && |t.attempts| > 0
    requires s != x && s.tool == x.tool && !IsIdempotent(s.tool)
    requires k < cfg.exactFailureBlockAfter && (k > 0 ==> cfg.sameToolFailureHaltAfter > 1)
    requires RunLength(t.attempts, s) == 0 && ExactFailures(t.log, s) == 0 && ToolFailures(t.log, s.tool) == 0
    ensures Live(cfg, doom, u, s, x) && |u.attempts| > 0
    ensures RunLength(u.attempts, s) == 0 && ExactFailures(u.log, s) == k && ToolFailures(u.log, s.tool) == 0
  {
    hide WasNudged, ExactFailures, Repeats, ToolFailures, IsIdempotent, Live, RunLength;
    u := t;
    var bad, good := Outcome(s, true, ""), Outcome(x, false, "");
    for i := 0 to k
      invariant Live(cfg, doom, u, s, x) && |u.attempts| > 0
      invariant RunLength(u.attempts, s) == 0 && ExactFailures(u.log, s) == i && ToolFailures(u.log, s.tool) == 0
    {
      var v := QuietStep(cfg, doom, u, s, x, bad);
      ExactStep(u.log, bad, s);
      var w := BreakStep(cfg, doom, v, s, x, good);
      ExactStep(v.log, good, s);
      ToolStep(v.log, good, s.tool);
      u := w;
    }
  }

  /** A run of `n` successes. */
  lemma RunOfSuccesses(cfg: Config, doom: DoomSettings, t: Turn, s: Signature, x: Signature, n: nat) returns (u: Turn)
    requires cfg.hardStopEnabled && Nudges(doom) && Live(cfg, doom, t, s, x) && |t.attempts| > 0
    requires s != x && !IsIdempotent(s.tool) && cfg.exactFailureBlockAfter >= 1
    requires RunLength(t.attempts, s) == 0 && ExactFailures(t.log, s) == 0 && ToolFailures(t.log, s.tool) == 0
    requires n < Window(doom)
    ensures Live(cfg, doom, u, s, x) && RunLength(u.attempts, s) == n < |u.attempts|
    ensures ExactFailures(u.log, s) == 0 && ToolFailures(u.log, s.tool) == 0
  {
    hide WasNudged, ExactFailures, Repeats, ToolFailures, IsIdempotent, Live, RunLength;
    u := t;
    var good := Outcome(s, false, "");
    for i := 0 to n
      invariant Live(cfg, doom, u, s, x) && RunLength(u.attempts, s) == i < |u.attempts|
      invariant ExactFailures(u.log, s) == 0 && ToolFailures(u.log, s.tool) == 0
    {
      var v := QuietStep(cfg, doom, u, s, x, good);
      ExactStep(u.log, good, s);
      ToolStep(u.log, good, s.tool);
      u := v;
    }
  }

  /** The run goes on with `n` failures. */
  lemma RunOfFailures(cfg: Config, doom: DoomSettings, t: Turn, s: Signature, x: Signature, n: nat) returns (u: Turn)
    requires cfg.hardStopEnabled && Nudges(doom) && Live(cfg, doom, t, s, x) && s != x && !IsIdempotent(s.tool)
    requires RunLength(t.attempts, s) < |t.attempts| && RunLength(t.attempts, s) + n < Window(doom)
    requires ExactFailures(t.log, s) + n <= cfg.exactFailureBlockAfter
    requires ToolFailures(t.log, s.tool) == 0 && n < Max(cfg.sameToolFailureHaltAfter, 1)
    ensures Live(cfg, doom, u, s, x)
    ensures RunLength(u.attempts, s) == RunLength(t.attempts, s) + n < |u.attempts|
    ensures ExactFailures(u.log, s) == ExactFailures(t.log, s) + n
  {
    hide WasNudged, ExactFailures, Repeats, ToolFailures, IsIdempotent, Live, RunLength;
    u := t;
    var bad := Outcome(s, true, "");
    for i := 0 to n
      invariant Live(cfg, doom, u, s, x) && RunLength(u.attempts, s) == RunLength(t.attempts, s) + i < |u.attempts|
      invariant ExactFailures(u.log, s) == ExactFailures(t.log, s) + i && ToolFailures(u.log, s.tool) == i
    {
      var v := QuietStep(cfg, doom, u, s, x, bad);
      ExactStep(u.log, bad, s);
      ToolStep(u.log, bad, s.tool);
      u := v;
    }
  }

  lemma ExactOvershoots(cfg: Config, doom: DoomSettings) returns (t: Turn, s: Signature)
    requires cfg.hardStopEnabled && ExactGivesWay(cfg, doom)
    ensures Reached(cfg, doom, t) && ExactFailures(t.log, s) > Max(cfg.exactFailureBlockAfter, 0)
  {
    hide WasNudged, ExactFailures, Repeats, ToolFailures, IsIdempotent, Live, RunLength, Reached;
    s := Signature("x", "0");
    var x, bad := Signature("x", "1"), Outcome(s, true, "");
    assert s != x by { assert "0"[0] != "1"[0]; }
    ShortNamesAreNotIdempotent("x");
    EmptyTurn(cfg, doom, s, x);
    if cfg.exactFailureBlockAfter >= 1 {
      var w := Window(doom) - 1;
      var b := Min(cfg.exactFailureBlockAfter, w);
      t := Opening(cfg, doom, s, x);
      t := SpreadFailures(cfg, doom, t, s, x, cfg.exactFailureBlockAfter - b);
      if b < w { t := RunOfSuccesses(cfg, doom, t, s, x, w - b); }
      t := RunOfFailures(cfg, doom, t, s, x, b);
    } else {
      t := Turn([], [], None);
    }
    var u := NudgeStep(cfg, doom, t, s, x, bad);
    ExactStep(t.log, bad, s);
    t := u;
  }

  /** The exact-failure limit is overshot in some turn exactly under this condition: nudges can come
      due, and the failures that must stand in a row before one does stay short of the tool's halt
      limit; or, with a limit below one, the very first attempt is nudged. */
  lemma ExactOvershootIff(cfg: Config, doom: DoomSettings)
    requires cfg.hardStopEnabled
    ensures (exists plan, sig :: ExactFailures(Drive(cfg, doom, plan).log, sig) > Max(cfg.exactFailureBlockAfter, 0))
            <==> ExactGivesWay(cfg, doom)
  {
    hide Drive, ExactFailures, ExactGivesWay;
    if plan, sig :| ExactFailures(Drive(cfg, doom, plan).log, sig) > Max(cfg.exactFailureBlockAfter, 0) {
      ExactOvershootNeeds(cfg, doom, plan, sig);
    }
    if ExactGivesWay(cfg, doom) {
      var t, s := ExactOvershoots(cfg, doom);
      var plan :| Drive(cfg, doom, plan) == t;
      assert ExactFailures(Drive(cfg, doom, plan).log, s) > Max(cfg.exactFailureBlockAfter, 0);
    }
  }

  // ---------------------------------------------------------------- the same for the no-progress limit

  /** How many times in a row the call has just returned `hash`. */
  function Streak(log: seq<Outcome>, sig: Signature, hash: string): nat {
    if Repeats(log, sig) > 0 && LastHash(log, sig) == hash then Repeats(log, sig) else 0
  }

  /** No failure on record, and the call stands at `k` returns of `hash`. */
  ghost predicate Stalled(t: Turn, s: Signature, hash: string, k: nat) {
    ExactFailures(t.log, s) == 0 && Streak(t.log, s, hash) == k && Repeats(t.log, s) <= Max(k, 1)
  }

  lemma StalledStep(t: Turn, s: Signature, hash: string, k: nat, o: Outcome)
    requires Stalled(t, s, hash, k) && !o.failed
    ensures var u := Turn(t.attempts, t.log + [o], t.halt);
            && (o.sig == s && o.hash == hash ==> Stalled(u, s, hash, k + 1) && Repeats(u.log, s) == k + 1)
            && (o.sig == s && o.hash != hash && o.hash != LastHash(t.log, s) ==> Stalled(u, s, hash, 0))
            && (o.sig != s ==> Stalled(u, s, hash, k))
  {
    hide ExactFailures, Repeats, LastHash;
    ExactStep(t.log, o, s);
    RepeatsStep(t.log, o, s);
  }

  /** `Stalled` looks at the log only. */
  lemma StalledByLog(t: Turn, u: Turn, s: Signature, hash: string, k: nat)
    requires Stalled(t, s, hash, k) && t.log == u.log
    ensures Stalled(u, s, hash, k)
  {
  }

  /** One more return of `hash`, or of something new, under both limits. */
  lemma StallStep(cfg: Config, doom: DoomSettings, t: Turn, s: Signature, x: Signature, hash: string, k: nat,
                  o: Outcome)
    returns (u: Turn)
    requires cfg.hardStopEnabled && Nudges(doom) && Live(cfg, doom, t, s, x) && s != x && o.sig == s && !o.failed
    requires !Due(doom, t.attempts, s) && cfg.exactFailureBlockAfter >= 1
    requires Stalled(t, s, hash, k) && Max(k, 1) < cfg.noProgressBlockAfter
    requires o.hash == hash || o.hash != LastHash(t.log, s)
    ensures Live(cfg, doom, u, s, x) && u.attempts == t.attempts + [s]
    ensures RunLength(u.attempts, s) == RunLength(t.attempts, s) + 1
    ensures Stalled(u, s, hash, if o.hash == hash then k + 1 else 0)
  {
    StalledStep(t, s, hash, k, o);
    hide WasNudged, ExactFailures, Repeats, ToolFailures, IsIdempotent, Live, RunLength, LastHash, Due, Nudges;
    u := QuietStep(cfg, doom, t, s, x, o);
    StalledByLog(Turn(t.attempts, t.log + [o], t.halt), u, s, hash, if o.hash == hash then k + 1 else 0);
  }

  /** Successes of `s` with one result, each followed by another tool, only raise the no-progress count. */
  lemma SpreadRepeats(cfg: Config, doom: DoomSettings, t: Turn, s: Signature, x: Signature, hash: string, k: nat)
    returns (u: Turn)
    requires cfg.hardStopEnabled && Nudges(doom) && Live(cfg, doom, t, s, x) && |t.attempts| > 0
    requires s != x && !IsIdempotent(x.tool) && cfg.exactFailureBlockAfter >= 1
    requires cfg.noProgressBlockAfter >= 2 && k < cfg.noProgressBlockAfter
    requires RunLength(t.attempts, s) == 0 && Stalled(t, s, hash, 0)
    ensures Live(cfg, doom, u, s, x) && |u.attempts| > 0 && RunLength(u.attempts, s) == 0 && Stalled(u, s, hash, k)
  {
    hide WasNudged, ExactFailures, Repeats, ToolFailures, IsIdempotent, Live, RunLength, LastHash, Stalled;
    u := t;
    var same, other := Outcome(s, false, hash), Outcome(x, false, "");
    for i := 0 to k
      invariant Live(cfg, doom, u, s, x) && |u.attempts| > 0
      invariant RunLength(u.attempts, s) == 0 && Stalled(u, s, hash, i)
    {
      var v := StallStep(cfg, doom, u, s, x, hash, i, same);
      var w := BreakStep(cfg, doom, v, s, x, other);
      StalledStep(v, s, hash, i + 1, other);
      StalledByLog(Turn(v.attempts, v.log + [other], v.halt), w, s, hash, i + 1);
      u := w;
    }
  }

  /** A run of `n` ever-changing results. */
  lemma RunOfChanges(cfg: Config, doom: DoomSettings, t: Turn, s: Signature, x: Signature, n: nat) returns (u: Turn)
    requires cfg.hardStopEnabled && Nudges(doom) && Live(cfg, doom, t, s, x) && |t.attempts| > 0 && s != x
    requires cfg.exactFailureBlockAfter >= 1 && cfg.noProgressBlockAfter >= 2 && n < Window(doom)
    requires RunLength(t.attempts, s) == 0 && Stalled(t, s, "h", 0)
    ensures Live(cfg, doom, u, s, x) && RunLength(u.attempts, s) == n < |u.attempts| && Stalled(u, s, "h", 0)
  {
    hide WasNudged, ExactFailures, Repeats, ToolFailures, IsIdempotent, Live, RunLength, LastHash, Stalled;
    u := t;
    for i := 0 to n
      invariant Live(cfg, doom, u, s, x) && RunLength(u.attempts, s) == i < |u.attempts| && Stalled(u, s, "h", 0)
    {
      var change := if LastHash(u.log, s) == "" then "new" else "";
      assert |change| != |"h"| && change != LastHash(u.log, s);
      u := StallStep(cfg, doom, u, s, x, "h", 0, Outcome(s, false, change));
    }
  }

  /** The run goes on with `n` equal results. */
  lemma RunOfRepeats(cfg: Config, doom: DoomSettings, t: Turn, s: Signature, x: Signature, k: nat, n: nat)
    returns (u: Turn)
    requires cfg.hardStopEnabled && Nudges(doom) && Live(cfg, doom, t, s, x) && s != x
              && cfg.exactFailureBlockAfter >= 1
    requires RunLength(t.attempts, s) < |t.attempts| && RunLength(t.attempts, s) + n < Window(doom)
    requires cfg.noProgressBlockAfter >= 2 && Stalled(t, s, "h", k) && k + n <= cfg.noProgressBlockAfter
    ensures Live(cfg, doom, u, s, x) && RunLength(u.attempts, s) == RunLength(t.attempts, s) + n < |u.attempts|
    ensures Stalled(u, s, "h", k + n)
  {
    hide WasNudged, ExactFailures, Repeats, ToolFailures, IsIdempotent, Live, RunLength, LastHash, Stalled;
    u := t;
    for i := 0 to n
      invariant Live(cfg, doom, u, s, x) && RunLength(u.attempts, s) == RunLength(t.attempts, s) + i < |u.attempts|
      invariant Stalled(u, s, "h", k + i)
    {
      u := StallStep(cfg, doom, u, s, x, "h", k + i, Outcome(s, false, "h"));
    }
  }

  /** A turn that opens with `n` failures of `s`, too few for a nudge. */
  lemma FailingStart(cfg: Config, doom: DoomSettings, s: Signature, x: Signature, n: nat) returns (u: Turn)
    requires cfg.hardStopEnabled && Nudges(doom) && s != x && n + 2 < doom.threshold
    requires n < Min(cfg.exactFailureBlockAfter, Max(cfg.sameToolFailureHaltAfter, 1))
    ensures Live(cfg, doom, u, s, x) && RunLength(u.attempts, s) == |u.attempts| == n
    ensures ExactFailures(u.log, s) == n && Repeats(u.log, s) == 0
  {
    hide WasNudged, ExactFailures, Repeats, ToolFailures, IsIdempotent, Live, RunLength, LastHash;
    EmptyTurn(cfg, doom, s, x);
    u := Turn([], [], None);
    var bad := Outcome(s, true, "");
    for i := 0 to n
      invariant Live(cfg, doom, u, s, x) && RunLength(u.attempts, s) == |u.attempts| == i
      invariant ExactFailures(u.log, s) == i && ToolFailures(u.log, s.tool) == i && Repeats(u.log, s) == 0
    {
      var v := QuietStep(cfg, doom, u, s, x, bad);
      ExactStep(u.log, bad, s);
      ToolStep(u.log, bad, s.tool);
      RepeatsStep(u.log, bad, s);
      u := v;
    }
  }

  /** From one success on record a due nudge lets the second equal one through. */
  lemma SecondRepeat(cfg: Config, doom: DoomSettings, t: Turn, s: Signature, x: Signature) returns (u: Turn)
    requires cfg.hardStopEnabled && Nudges(doom) && Live(cfg, doom, t, s, x) && s != x
    requires !Due(doom, t.attempts, s) && Due(doom, t.attempts + [s], s)
    requires ExactFailures(t.log, s) < cfg.exactFailureBlockAfter && Repeats(t.log, s) == 0
    ensures Reached(cfg, doom, u) && Repeats(u.log, s) == 2
  {
    hide WasNudged, ExactFailures, Repeats, ToolFailures, IsIdempotent, Live, RunLength, LastHash, Due;
    var same := Outcome(s, false, "h");
    var v := QuietStep(cfg, doom, t, s, x, same);
    u := NudgeStep(cfg, doom, v, s, x, same);
    RepeatsStep(t.log, same, s);
    RepeatsStep(v.log, same, s);
  }

  lemma ReadIsIdempotent()
    ensures IsIdempotent("read_file")
  {
    assert "read_file" in IDEMPOTENT_TOOLS;
    assert forall t :: t in MUTATING_TOOLS ==> t == [] || t[0] != 'r' || t == "run_shell" || t == "run_runtime_job";
    assert "read_file"[0] == 'r' && |"read_file"| == |"run_shell"| && "read_file"[1] != "run_shell"[1];
    assert |"read_file"| != |"run_runtime_job"|;
  }

  lemma LongStall(cfg: Config, doom: DoomSettings, s: Signature, x: Signature) returns (t: Turn)
    requires cfg.hardStopEnabled && Nudges(doom) && s != x && !IsIdempotent(x.tool)
    requires cfg.exactFailureBlockAfter >= 1 && cfg.noProgressBlockAfter >= 2
    ensures Reached(cfg, doom, t) && Repeats(t.log, s) > cfg.noProgressBlockAfter
  {
    hide WasNudged, ExactFailures, ToolFailures, Repeats, IsIdempotent, Live, RunLength, Reached, LastHash;
    var w := Window(doom) - 1;
    var m := Min(cfg.noProgressBlockAfter, w);
    t := Opening(cfg, doom, s, x);
    assert Stalled(t, s, "h", 0);
    t := SpreadRepeats(cfg, doom, t, s, x, "h", cfg.noProgressBlockAfter - m);
    if m < w { t := RunOfChanges(cfg, doom, t, s, x, w - m); }
    t := RunOfRepeats(cfg, doom, t, s, x, cfg.noProgressBlockAfter - m, m);
    var same := Outcome(s, false, "h");
    var u := NudgeStep(cfg, doom, t, s, x, same);
    StalledStep(t, s, "h", cfg.noProgressBlockAfter, same);
    t := u;
  }

  lemma ProgressOvershoots(cfg: Config, doom: DoomSettings) returns (t: Turn, s: Signature)
    requires cfg.hardStopEnabled && ProgressGivesWay(cfg, doom)
    ensures Reached(cfg, doom, t) && IsIdempotent(s.tool) && Repeats(t.log, s) > Max(cfg.noProgressBlockAfter, 1)
  {
    s := Signature("read_file", "");
    var x := Signature("x", "");
    assert IsIdempotent(s.tool) by { ReadIsIdempotent(); }
    assert s != x by { assert |"read_file"| != |"x"|; }
    ShortNamesAreNotIdempotent("x");
    hide WasNudged, ExactFailures, Repeats, ToolFailures, IsIdempotent, Live, Reached, LastHash;
    if cfg.noProgressBlockAfter >= 2 {
      t := LongStall(cfg, doom, s, x);
    } else if doom.threshold == 2 {
      t := Opening(cfg, doom, s, x);
      RunStep(t.attempts, s, s);
      t := SecondRepeat(cfg, doom, t, s, x);
    } else {
      t := FailingStart(cfg, doom, s, x, doom.threshold - 3);
      RunStep(t.attempts, s, s);
      t := SecondRepeat(cfg, doom, t, s, x);
    }
  }

  /** The no-progress limit of idempotent tools is overshot in some turn exactly under this condition:
      nudges can come due, the exact-failure limit is at least one, and a limit of one leaves room for the failures
      that must come first. */
  lemma ProgressOvershootIff(cfg: Config, doom: DoomSettings)
    requires cfg.hardStopEnabled
    ensures (exists plan, sig: Signature :: IsIdempotent(sig.tool)
              && Repeats(Drive(cfg, doom, plan).log, sig) > Max(cfg.noProgressBlockAfter, 1))
            <==> ProgressGivesWay(cfg, doom)
  {
    hide Drive, Repeats, ProgressGivesWay, IsIdempotent;
    if plan, sig: Signature :| IsIdempotent(sig.tool)
                               && Repeats(Drive(cfg, doom, plan).log, sig) > Max(cfg.noProgressBlockAfter, 1) {
      ProgressOvershootNeeds(cfg, doom, plan, sig);
    }
    if ProgressGivesWay(cfg, doom) {
      var t, s := ProgressOvershoots(cfg, doom);
      var plan :| Drive(cfg, doom, plan) == t;
      assert Repeats(Drive(cfg, doom, plan).log, s) > Max(cfg.noProgressBlockAfter, 1);
    }
  }

  const DEFAULT_CONFIG := Config(true, true, 2, 5, 3, 8, 2, 5)
  const DEFAULT_DOOM := DoomSettings(3, false, true)

  /** With the shipped defaults both limits are overshot: six failures, or six equal results, of one
      call are executed in some turn although each limit is five. */
  lemma DefaultsOvershoot()
    ensures exists plan, sig :: ExactFailures(Drive(DEFAULT_CONFIG, DEFAULT_DOOM, plan).log, sig) == 6
    ensures exists plan, sig: Signature ::
              IsIdempotent(sig.tool) && Repeats(Drive(DEFAULT_CONFIG, DEFAULT_DOOM, plan).log, sig) == 6
  {
    hide Drive, ExactFailures, Repeats, IsIdempotent, ToolFailures, WasNudged;
    ExactOvershootIff(DEFAULT_CONFIG, DEFAULT_DOOM);
    ProgressOvershootIff(DEFAULT_CONFIG, DEFAULT_DOOM);
    var plan, sig :| ExactFailures(Drive(DEFAULT_CONFIG, DEFAULT_DOOM, plan).log, sig) > 5;
    RetriesAreBounded(DEFAULT_CONFIG, DEFAULT_DOOM, plan);
    assert ExactFailures(Drive(DEFAULT_CONFIG, DEFAULT_DOOM, plan).log, sig) == 6;
    var plan', sig': Signature :| IsIdempotent(sig'.tool)
                                  && Repeats(Drive(DEFAULT_CONFIG, DEFAULT_DOOM, plan').log, sig') > 5;
    RetriesAreBounded(DEFAULT_CONFIG, DEFAULT_DOOM, plan');
    assert Repeats(Drive(DEFAULT_CONFIG, DEFAULT_DOOM, plan').log, sig') == 6;
  }
}
