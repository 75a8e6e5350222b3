/** What the guardrail guarantees over a whole turn. */
module GuardrailTheorems {
  import opened Sequences
  import opened Tasks
  import opened ToolGuardrails

  /** The decision taken at attempt `i` of a log of attempts, given the outcomes known by then. */
  function DecisionAt(cfg: Config, doom: DoomSettings, attempts: seq<Signature>, i: nat, log: seq<Outcome>): Decision
    requires i < |attempts|
  {
    BeforeDecision(cfg, doom, attempts[..i], log, attempts[i])
  }

  lemma NowIs(attempts: seq<Signature>, i: nat)
    requires i < |attempts|
    ensures attempts[..i] + [attempts[i]] == attempts[..i+1]
  {
  }

  // ---------------------------------------------------------------- the decisions, told from runs

  /** The outcomes of a call, or of a tool, are picked from the log by place. */
  ghost function CallPlaces(log: seq<Outcome>, sig: Signature): set<nat> {
    set i | 0 <= i < |log| && log[i].sig == sig
  }

  ghost function ToolPlaces(log: seq<Outcome>, tool: string): set<nat> {
    set i | 0 <= i < |log| && log[i].sig.tool == tool
  }

  lemma {:induction false} EventsAreSelected(log: seq<Outcome>, sig: Signature)
    ensures Selects(log, CallPlaces(log, sig), EventsOf(log, sig))
    ensures Selects(log, ToolPlaces(log, sig.tool), ToolEventsOf(log, sig.tool))
  {
    if log == [] {
      SelectsNothing<Outcome>(CallPlaces(log, sig));
      SelectsNothing<Outcome>(ToolPlaces(log, sig.tool));
    } else {
      var n := |log| - 1;
      var front := log[..n];
      assert log == front + [log[n]];
      EventsAreSelected(front, sig);
      hide Selects;
      SelectsAgree(front, CallPlaces(front, sig), CallPlaces(log, sig), EventsOf(front, sig));
      SelectsStep(front, CallPlaces(log, sig), EventsOf(front, sig), log[n]);
      SelectsAgree(front, ToolPlaces(front, sig.tool), ToolPlaces(log, sig.tool), ToolEventsOf(front, sig.tool));
      SelectsStep(front, ToolPlaces(log, sig.tool), ToolEventsOf(front, sig.tool), log[n]);
    }
  }

  /** `k` is the length of the call's trailing run of failures. */
  ghost predicate CallFailures(log: seq<Outcome>, sig: Signature, k: nat) {
    exists events :: Selects(log, CallPlaces(log, sig), events) && IsFailureRun(events, k)
  }

  /** `k` is the length of the tool's trailing run of failures, whatever the arguments. */
  ghost predicate FailuresOfTool(log: seq<Outcome>, tool: string, k: nat) {
    exists events :: Selects(log, ToolPlaces(log, tool), events) && IsFailureRun(events, k)
  }

  /** `k` is the length of the call's trailing run of successes with one result. */
  ghost predicate EqualResults(log: seq<Outcome>, sig: Signature, k: nat) {
    exists events :: Selects(log, CallPlaces(log, sig), events) && IsStaleRun(events, k)
  }

  lemma NoShorterRun(events: seq<Outcome>, j: nat, k: nat)
    requires j < k
    ensures IsFailureRun(events, k) ==> !IsFailureRun(events, j)
    ensures IsStaleRun(events, k) ==> !IsStaleRun(events, j)
  {
    var n := |events|;
    if IsFailureRun(events, k) { assert events[n-j-1].failed; }
    if IsStaleRun(events, k) { assert !events[n-j-1].failed && events[n-j-1].hash == events[n-1].hash; }
  }

  lemma RunsAre(events: seq<Outcome>, k: nat)
    ensures IsFailureRun(events, k) <==> k == FailureRun(events)
    ensures IsStaleRun(events, k) <==> k == StaleRun(events)
  {
    FailureRunIsLongest(events);
    StaleRunIsLongest(events);
    var f, s := FailureRun(events), StaleRun(events);
    hide IsFailureRun, IsStaleRun;
    if k < f { NoShorterRun(events, k, f); } else if f < k { NoShorterRun(events, f, k); }
    if k < s { NoShorterRun(events, k, s); } else if s < k { NoShorterRun(events, s, k); }
  }

  /** The counters the controller goes by are these runs. */
  lemma CountersAreRuns(log: seq<Outcome>, sig: Signature, k: nat)
    ensures CallFailures(log, sig, k) <==> k == ExactFailures(log, sig)
    ensures FailuresOfTool(log, sig.tool, k) <==> k == ToolFailures(log, sig.tool)
    ensures EqualResults(log, sig, k) <==> k == Repeats(log, sig)
  {
    EventsAreSelected(log, sig);
    var mine, all := EventsOf(log, sig), ToolEventsOf(log, sig.tool);
    forall events | Selects(log, CallPlaces(log, sig), events) ensures events == mine {
      SelectionIsUnique(log, CallPlaces(log, sig), events, mine);
    }
    forall events | Selects(log, ToolPlaces(log, sig.tool), events) ensures events == all {
      SelectionIsUnique(log, ToolPlaces(log, sig.tool), events, all);
    }
    hide Selects, CallPlaces, ToolPlaces, FailureRun, StaleRun, EventsOf, ToolEventsOf;
    RunsAre(mine, k);
    RunsAre(all, k);
    hide IsFailureRun, IsStaleRun;
  }

  /** The tools that only look things up. */
  ghost predicate IsLookup(tool: string) {
    || tool == "read_file" || tool == "search_code" || tool == "search_files" || tool == "list_directory"
    || tool == "git_status" || tool == "git_diff" || tool == "git_log" || tool == "skills_list"
    || tool == "skill_view" || tool == "butler_recall" || tool == "list_runtime_jobs"
  }

  lemma LookupName(tool: string)
    requires IsLookup(tool)
    ensures |tool| >= 5
    ensures tool[0] in {'s', 'l', 'b'} || (tool[0] == 'r' && tool[1] == 'e') || (tool[0] == 'g' && tool[4] in "sdl")
  {
  }

  lemma MutatingName(tool: string)
    requires tool in MUTATING_TOOLS
    ensures |tool| >= 5
    ensures tool[0] in {'t', 'w', 'e', 'p', 'd'} || (tool[0] == 'r' && tool[1] == 'u')
            || (tool[0] == 'g' && tool[4] in "ac")
  {
  }

  /** No lookup is on the list of mutating tools, so each of them counts as idempotent. */
  lemma IdempotentMeans(tool: string)
    ensures IsIdempotent(tool) <==> IsLookup(tool)
  {
    assert tool in IDEMPOTENT_TOOLS <==> IsLookup(tool);
    hide IsLookup;
    if IsLookup(tool) && tool in MUTATING_TOOLS {
      LookupName(tool);
      MutatingName(tool);
    }
  }

  /** After a failure: halt exactly when the hard stop is on and the tool's run of failures reaches its
      limit; else warn exactly when warnings are on and the run of the call, or failing that of the
      tool, reaches its warn limit, with that run's length; else let pass. */
  lemma AfterFailureMeans(cfg: Config, log: seq<Outcome>, o: Outcome, exact: nat, same: nat)
    requires o.failed && CallFailures(log, o.sig, exact) && FailuresOfTool(log, o.sig.tool, same)
    ensures var d := AfterDecision(cfg, log, o);
            var halts := cfg.hardStopEnabled && same >= cfg.sameToolFailureHaltAfter;
            var callWarns := cfg.warningsEnabled && exact >= cfg.exactFailureWarnAfter;
            var toolWarns := cfg.warningsEnabled && same >= cfg.sameToolFailureWarnAfter;
            && d.tool == o.sig.tool
            && (d.action == Halt <==> halts)
            && (d.action == Warn <==> !halts && (callWarns || toolWarns))
            && (d.action == Allow <==> !halts && !callWarns && !toolWarns)
            && (halts ==> d.code == SameToolHalt && d.count == same)
            && (!halts && callWarns ==> d.code == ExactFailureWarning && d.count == exact)
            && (!halts && !callWarns && toolWarns ==> d.code == SameToolWarning && d.count == same)
            && (d.action == Allow ==> d.code == Plain && d.count == exact)
  {
    CountersAreRuns(log, o.sig, exact);
    CountersAreRuns(log, o.sig, same);
    hide CallFailures, FailuresOfTool, ExactFailures, ToolFailures, Repeats, IsIdempotent;
  }

  /** After a success: warn exactly when the tool is idempotent, warnings are on and the run of equal
      results reaches its limit; else let pass. */
  lemma AfterSuccessMeans(cfg: Config, log: seq<Outcome>, o: Outcome, equal: nat)
    requires !o.failed && EqualResults(log, o.sig, equal)
    ensures var d := AfterDecision(cfg, log, o);
            var idempotent := IsLookup(o.sig.tool);
            var warns := idempotent && cfg.warningsEnabled && equal >= cfg.noProgressWarnAfter;
            d == if warns then Decision(Warn, NoProgressWarning, o.sig.tool, equal)
                 else Decision(Allow, Plain, o.sig.tool, if idempotent then equal else 0)
  {
    CountersAreRuns(log, o.sig, equal);
    IdempotentMeans(o.sig.tool);
    hide EqualResults, ExactFailures, ToolFailures, Repeats, IsIdempotent, IsLookup;
  }

  /** The `n` attempts up to and including the one at `i` are one call. */
  ghost predicate SameCall(attempts: seq<Signature>, i: nat, n: nat) {
    i < |attempts| && n <= i + 1 && forall j :: i + 1 - n <= j <= i ==> attempts[j] == attempts[i]
  }

  /** How many attempts up to the one at `i` the check looks at. */
  function Seen(doom: DoomSettings, i: nat): nat {
    if i + 1 < doom.threshold && i + 1 < 16 then i + 1 else if doom.threshold < 16 then doom.threshold else 16
  }

  /** The attempts looked at are one call, and at most one short of the threshold. */
  ghost predicate NudgeWorthy(doom: DoomSettings, attempts: seq<Signature>, i: nat) {
    doom.softNudge && doom.threshold >= 2 && Seen(doom, i) + 1 >= doom.threshold && SameCall(attempts, i, Seen(doom, i))
  }

  lemma TailMeans(doom: DoomSettings, attempts: seq<Signature>, i: nat)
    requires i < |attempts|
    ensures NudgeDue(doom, attempts[..i+1]) <==> NudgeWorthy(doom, attempts, i)
    ensures Doomed(doom, attempts[..i+1]) <==> 1 <= doom.threshold <= 16 && SameCall(attempts, i, doom.threshold)
  {
    var tail, m := Tail(doom, attempts[..i+1]), Seen(doom, i);
    assert |tail| == m && tail == attempts[i+1-m..i+1];
    if m > 0 {
      assert tail[m-1] == attempts[i];
      if AllSame(tail) {
        forall j | i + 1 - m <= j <= i ensures attempts[j] == attempts[i] { assert tail[j - (i + 1 - m)] == tail[0]; }
      }
      if SameCall(attempts, i, m) {
        assert forall k :: 0 <= k < m ==> tail[k] == attempts[i + 1 - m + k] == attempts[i];
      }
      assert AllSame(tail) <==> SameCall(attempts, i, m);
    }
  }

  /** The last attempt is worth a nudge, and no earlier attempt of the same call was. */
  ghost predicate NudgedNow(doom: DoomSettings, attempts: seq<Signature>) {
    var i := |attempts| - 1;
    && attempts != [] && NudgeWorthy(doom, attempts, i)
    && forall j :: 0 <= j < i && attempts[j] == attempts[i] ==> !NudgeWorthy(doom, attempts, j)
  }

  lemma NudgedNowMeans(doom: DoomSettings, attempts: seq<Signature>, sig: Signature)
    ensures NudgedNow(doom, attempts + [sig]) <==>
              NudgeDue(doom, attempts + [sig]) && !WasNudged(doom, attempts, sig)
  {
    var now, n := attempts + [sig], |attempts|;
    assert now[..n+1] == now;
    TailMeans(doom, now, n);
    forall j | 0 <= j < n ensures NudgeDue(doom, attempts[..j+1]) <==> NudgeWorthy(doom, now, j) {
      TailMeans(doom, now, j);
      assert now[..j+1] == attempts[..j+1];
    }
    hide NudgeDue, NudgeWorthy;
    assert forall j :: 0 <= j < n ==> now[j] == attempts[j];
  }

  /** Before a call: nudge a call once, when its run comes within one of the threshold; else stop it, or
      ask, when its run fills the threshold; else block it when it has failed, or an idempotent one has
      stalled, too often in a row; else let it pass.  Without the hard stop everything passes. */
  lemma BeforeMeans(cfg: Config, doom: DoomSettings, attempts: seq<Signature>, log: seq<Outcome>, sig: Signature,
                    exact: nat, equal: nat)
    requires CallFailures(log, sig, exact) && EqualResults(log, sig, equal)
    ensures var now := attempts + [sig];
            var idempotent := IsLookup(sig.tool);
            BeforeDecision(cfg, doom, attempts, log, sig) ==
            if !cfg.hardStopEnabled then Decision(Allow, Plain, sig.tool, 0)
            else if NudgedNow(doom, now) then Decision(Warn, SoftNudge, sig.tool, Seen(doom, |attempts|))
            else if 1 <= doom.threshold <= 16 && SameCall(now, |attempts|, doom.threshold) then
              Decision(if doom.askMode then Ask else Block, DoomLoop, sig.tool, doom.threshold)
            else if exact >= cfg.exactFailureBlockAfter then Decision(Block, ExactFailureBlock, sig.tool, exact)
            else if idempotent && equal > 0 && equal >= cfg.noProgressBlockAfter then
              Decision(Block, NoProgressBlock, sig.tool, equal)
            else Decision(Allow, Plain, sig.tool, 0)
  {
    var now := attempts + [sig];
    CountersAreRuns(log, sig, exact);
    CountersAreRuns(log, sig, equal);
    IdempotentMeans(sig.tool);
    NudgedNowMeans(doom, attempts, sig);
    TailMeans(doom, now, |attempts|);
    assert now[..|attempts|+1] == now;
    assert |Tail(doom, now)| == Seen(doom, |attempts|);
    hide CallFailures, EqualResults, ExactFailures, ToolFailures, Repeats, NudgedNow, NudgeDue, WasNudged, Doomed;
    hide SameCall, Tail, IsIdempotent, IsLookup;
  }

  // ---------------------------------------------------------------- the doom-loop window

  /** Of `threshold + 1` identical attempts in a row one is blocked: the one that completes the
      window, or, when that one is let through with a nudge, the next. */
  lemma DoomWindow(cfg: Config, doom: DoomSettings, attempts: seq<Signature>, n: nat, log: seq<Outcome>,
                   log': seq<Outcome>)
    requires cfg.hardStopEnabled && !doom.askMode && 1 <= doom.threshold <= 16
    requires n + doom.threshold < |attempts|
    requires forall i :: n <= i <= n + doom.threshold ==> attempts[i] == attempts[n]
    ensures var t := n + doom.threshold;
            var d, d' := DecisionAt(cfg, doom, attempts, t - 1, log), DecisionAt(cfg, doom, attempts, t, log');
            || (d.code == DoomLoop && d.action == Block)
            || (d.code == SoftNudge && d.AllowsExecution() && d'.code == DoomLoop && d'.action == Block)
  {
    var t := n + doom.threshold;
    NowIs(attempts, t - 1);
    NowIs(attempts, t);
    assert Tail(doom, attempts[..t]) == attempts[n..t];
    assert Tail(doom, attempts[..t+1]) == attempts[n+1..t+1];
    assert Doomed(doom, attempts[..t]) && Doomed(doom, attempts[..t+1]);
    if NudgeDue(doom, attempts[..t]) {
      assert attempts[..t][..t] == attempts[..t];
      assert attempts[..t][t-1] == attempts[t];
      assert WasNudged(doom, attempts[..t], attempts[t]);
    }
  }

  /** The mode changes what a doom-loop decision does, not whether there is one. */
  lemma SameBut(cfg: Config, doom: DoomSettings, blocking: DoomSettings, attempts: seq<Signature>, i: nat)
    requires blocking == doom.(askMode := false) && i < |attempts|
    ensures DecisionAt(cfg, doom, attempts, i, []).code == DecisionAt(cfg, blocking, attempts, i, []).code
  {
    forall a: seq<Signature>
      ensures NudgeDue(doom, a) == NudgeDue(blocking, a) && Doomed(doom, a) == Doomed(blocking, a)
    {
    }
    assert WasNudged(doom, attempts[..i], attempts[i]) == WasNudged(blocking, attempts[..i], attempts[i]);
  }

  lemma DoomLoopNeeds(cfg: Config, doom: DoomSettings, attempts: seq<Signature>, i: nat, log: seq<Outcome>)
    requires i < |attempts| && DecisionAt(cfg, doom, attempts, i, log).code == DoomLoop
    ensures cfg.hardStopEnabled && 1 <= doom.threshold <= 16
  {
    hide NudgeDue, WasNudged, ExactFailures, Repeats, IsIdempotent;
  }

  /** The window exists only for thresholds one to sixteen: the history keeps no more. */
  lemma DoomLoopReachableIff(cfg: Config, doom: DoomSettings)
    ensures (exists attempts: seq<Signature>, i: nat, log: seq<Outcome> ::
              i < |attempts| && DecisionAt(cfg, doom, attempts, i, log).code == DoomLoop)
            <==> cfg.hardStopEnabled && 1 <= doom.threshold <= 16
  {
    hide *;
    forall attempts: seq<Signature>, i: nat, log: seq<Outcome> |
      i < |attempts| && DecisionAt(cfg, doom, attempts, i, log).code == DoomLoop
      ensures cfg.hardStopEnabled && 1 <= doom.threshold <= 16
    {
      DoomLoopNeeds(cfg, doom, attempts, i, log);
    }
    if cfg.hardStopEnabled && 1 <= doom.threshold <= 16 {
      var attempts := seq(doom.threshold + 1, i => Signature("", ""));
      var blocking := doom.(askMode := false);
      DoomWindow(cfg, blocking, attempts, 0, [], []);
      SameBut(cfg, doom, blocking, attempts, doom.threshold - 1);
      SameBut(cfg, doom, blocking, attempts, doom.threshold);
    }
  }

  /** A doom-loop decision means the last `threshold` attempts of the whole turn are identical,
      although the controller has kept sixteen at most. */
  lemma DoomMeansIdenticalTail(cfg: Config, doom: DoomSettings, attempts: seq<Signature>, j: nat, log: seq<Outcome>)
    requires j < |attempts| && DecisionAt(cfg, doom, attempts, j, log).code == DoomLoop
    ensures 1 <= doom.threshold <= j + 1
    ensures forall i :: j + 1 - doom.threshold <= i <= j ==> attempts[i] == attempts[j]
  {
    NowIs(attempts, j);
    var tail := Tail(doom, attempts[..j+1]);
    assert AllSame(tail) && |tail| == doom.threshold;
    forall i | j + 1 - doom.threshold <= i <= j ensures attempts[i] == attempts[j] {
      assert tail[i - (j + 1 - doom.threshold)] == attempts[i];
      assert tail[|tail|-1] == attempts[j];
    }
  }

  // ---------------------------------------------------------------- the nudge

  /** No signature is nudged twice in a turn. */
  lemma NudgedOnce(cfg: Config, doom: DoomSettings, attempts: seq<Signature>, i: nat, j: nat, log: seq<Outcome>,
                   log': seq<Outcome>)
    requires i < j < |attempts| && attempts[i] == attempts[j]
    requires DecisionAt(cfg, doom, attempts, i, log).code == SoftNudge
    ensures DecisionAt(cfg, doom, attempts, j, log').code != SoftNudge
  {
    NowIs(attempts, i);
    assert attempts[..j][i] == attempts[j] && attempts[..j][..i+1] == attempts[..i+1];
    assert WasNudged(doom, attempts[..j], attempts[j]);
  }

  lemma {:induction false} FirstNudge(cfg: Config, doom: DoomSettings, attempts: seq<Signature>, j: nat, sig: Signature)
    returns (i: nat)
    requires j <= |attempts| && cfg.hardStopEnabled && WasNudged(doom, attempts[..j], sig)
    ensures i < j && attempts[i] == sig && forall log :: DecisionAt(cfg, doom, attempts, i, log).code == SoftNudge
  {
    i :| 0 <= i < j && attempts[..j][i] == sig && NudgeDue(doom, attempts[..j][..i+1]);
    assert attempts[..j][..i+1] == attempts[..i+1];
    NowIs(attempts, i);
    if WasNudged(doom, attempts[..i], sig) {
      i := FirstNudge(cfg, doom, attempts, i, sig);
    }
  }

  /** With the nudge enabled, a doom-loop decision is always preceded by that signature's nudge. */
  lemma DoomIsAnnounced(cfg: Config, doom: DoomSettings, attempts: seq<Signature>, j: nat, log: seq<Outcome>)
    returns (i: nat)
    requires doom.softNudge && doom.threshold > 1
    requires j < |attempts| && DecisionAt(cfg, doom, attempts, j, log).code == DoomLoop
    ensures i < j && attempts[i] == attempts[j]
    ensures forall log' :: DecisionAt(cfg, doom, attempts, i, log').code == SoftNudge
  {
    NowIs(attempts, j);
    assert NudgeDue(doom, attempts[..j+1]);
    i := FirstNudge(cfg, doom, attempts, j, attempts[j]);
  }

  // ---------------------------------------------------------------- bounded retries

  /** What a turn has seen: attempts, executed calls, and the halt decision once there is one. */
  datatype Turn = Turn(attempts: seq<Signature>, log: seq<Outcome>, halt: Option<Decision>)

  /** One attempt by a caller that executes only what is allowed; `o` is what the tool would return. */
  function Try(cfg: Config, doom: DoomSettings, t: Turn, o: Outcome): Turn {
    var d, attempts := BeforeDecision(cfg, doom, t.attempts, t.log, o.sig), t.attempts + [o.sig];
    if d.action.Block? then Turn(attempts, t.log, Some(d))
    else if !d.AllowsExecution() then Turn(attempts, t.log, t.halt)
    else
      var after := AfterDecision(cfg, t.log + [o], o);
      Turn(attempts, t.log + [o], if after.action.Halt? then Some(after) else t.halt)
  }

  /** A turn of such a caller, which stops at the first halt decision. */
  function Drive(cfg: Config, doom: DoomSettings, plan: seq<Outcome>): Turn {
    if plan == [] then Turn([], [], None)
    else
      var t := Drive(cfg, doom, plan[..|plan|-1]);
      if t.halt.Some? then t else Try(cfg, doom, t, plan[|plan|-1])
  }

  function Max(a: int, b: int): int { if a < b then b else a }

  function Grace(doom: DoomSettings, t: Turn, sig: Signature): int {
    if WasNudged(doom, t.attempts, sig) then 1 else 0
  }

  ghost predicate Bounded(cfg: Config, doom: DoomSettings, t: Turn) {
    && (forall s :: ExactFailures(t.log, s) <= Max(cfg.exactFailureBlockAfter, 0) + Grace(doom, t, s))
    && (forall s: Signature :: IsIdempotent(s.tool) ==>
        Repeats(t.log, s) <= Max(cfg.noProgressBlockAfter, 1) + Grace(doom, t, s))
    && (forall tool :: ToolFailures(t.log, tool) <= Max(cfg.sameToolFailureHaltAfter, 1))
    && (t.halt.None? ==> forall tool :: ToolFailures(t.log, tool) < Max(cfg.sameToolFailureHaltAfter, 1))
  }

  lemma GraceGrows(doom: DoomSettings, t: Turn, sig: Signature, s: Signature)
    ensures WasNudged(doom, t.attempts, s) ==> WasNudged(doom, t.attempts + [sig], s)
    ensures NudgeDue(doom, t.attempts + [sig]) ==> WasNudged(doom, t.attempts + [sig], sig)
  {
    NudgedStep(doom, t.attempts, sig, s);
    NudgedStep(doom, t.attempts, sig, sig);
  }

  /** An attempt that gets executed was nudged just now, or is still under both limits. */
  lemma ExecutedUnderLimits(cfg: Config, doom: DoomSettings, t: Turn, sig: Signature)
    requires cfg.hardStopEnabled && BeforeDecision(cfg, doom, t.attempts, t.log, sig).AllowsExecution()
    ensures || (NudgeDue(doom, t.attempts + [sig]) && !WasNudged(doom, t.attempts, sig))
            || (&& ExactFailures(t.log, sig) < cfg.exactFailureBlockAfter
                && (IsIdempotent(sig.tool) ==>
                    Repeats(t.log, sig) == 0 || Repeats(t.log, sig) < cfg.noProgressBlockAfter))
  {
    hide NudgeDue, WasNudged, Doomed, ExactFailures, Repeats, IsIdempotent;
  }

  lemma TryStaysBounded(cfg: Config, doom: DoomSettings, t: Turn, o: Outcome)
    requires cfg.hardStopEnabled && t.halt.None? && Bounded(cfg, doom, t)
    ensures Bounded(cfg, doom, Try(cfg, doom, t, o))
  {
    hide NudgeDue, WasNudged, Doomed, ExactFailures, Repeats, ToolFailures, IsIdempotent;
    var d := BeforeDecision(cfg, doom, t.attempts, t.log, o.sig);
    forall s ensures Grace(doom, t, s) <= Grace(doom, Try(cfg, doom, t, o), s) { GraceGrows(doom, t, o.sig, s); }
    GraceGrows(doom, t, o.sig, o.sig);
    if d.AllowsExecution() {
      ExecutedUnderLimits(cfg, doom, t, o.sig);
      hide BeforeDecision;
      forall s { ExactStep(t.log, o, s); }
      forall s { RepeatsStep(t.log, o, s); }
      forall tool { ToolStep(t.log, o, tool); }
    }
  }

  lemma NothingCounted()
    ensures forall s :: ExactFailures([], s) == 0 && Repeats([], s) == 0
    ensures forall tool :: ToolFailures([], tool) == 0
  {
  }

  /** Whatever the tools return: exact failures and stale repeats exceed their block limits by one
      at most, and only for a signature that was nudged; tool failures never exceed the halt limit. */
  lemma {:induction false} RetriesAreBounded(cfg: Config, doom: DoomSettings, plan: seq<Outcome>)
    requires cfg.hardStopEnabled
    ensures Bounded(cfg, doom, Drive(cfg, doom, plan))
  {
    if plan == [] {
      NothingCounted();
    } else {
      RetriesAreBounded(cfg, doom, plan[..|plan|-1]);
      var t := Drive(cfg, doom, plan[..|plan|-1]);
      if t.halt.None? { TryStaysBounded(cfg, doom, t, plan[|plan|-1]); }
    }
  }

  /** With the nudge off, or a threshold that can never make it due, the limits are exact. */
  lemma LimitsAreExactWithoutNudge(cfg: Config, doom: DoomSettings, plan: seq<Outcome>, sig: Signature)
    requires cfg.hardStopEnabled && (!doom.softNudge || doom.threshold < 2 || doom.threshold > 17)
    ensures ExactFailures(Drive(cfg, doom, plan).log, sig) <= Max(cfg.exactFailureBlockAfter, 0)
    ensures IsIdempotent(sig.tool) ==> Repeats(Drive(cfg, doom, plan).log, sig) <= Max(cfg.noProgressBlockAfter, 1)
  {
    RetriesAreBounded(cfg, doom, plan);
    forall attempts: seq<Signature> ensures !NudgeDue(doom, attempts) {}
    hide NudgeDue, Drive, ExactFailures, Repeats;
    assert Grace(doom, Drive(cfg, doom, plan), sig) == 0;
  }

  // ---------------------------------------------------------------- the halt latch, under any caller

  /** What can happen to a controller between two resets; a caller need not stop at a halt. */
  datatype Event = Before(sig: Signature) | After(outcome: Outcome) | External(decision: Decision)

  /** The block or halt the controller decides on itself at `e`. */
  function OwnHalt(cfg: Config, doom: DoomSettings, t: Turn, e: Event): Option<Decision> {
    match e
    case Before(sig) =>
      var d := BeforeDecision(cfg, doom, t.attempts, t.log, sig);
      if d.action.Block? then Some(d) else None
    case After(o) =>
      var d := AfterDecision(cfg, t.log + [o], o);
      if d.action.Halt? then Some(d) else None
    case External(_) => None
  }

  function Observe(cfg: Config, doom: DoomSettings, t: Turn, e: Event): Turn {
    var own := OwnHalt(cfg, doom, t, e);
    match e
    case Before(sig) => Turn(t.attempts + [sig], t.log, if own.Some? then own else t.halt)
    case After(o) => Turn(t.attempts, t.log + [o], if own.Some? then own else t.halt)
    case External(d) => Turn(t.attempts, t.log, if t.halt.None? then Some(d) else t.halt)
  }

  /** The turn after the events, from a reset. */
  function Replay(cfg: Config, doom: DoomSettings, events: seq<Event>): Turn {
    if events == [] then Turn([], [], None)
    else Observe(cfg, doom, Replay(cfg, doom, events[..|events|-1]), events[|events|-1])
  }

  function OwnHaltAt(cfg: Config, doom: DoomSettings, events: seq<Event>, i: nat): Option<Decision>
    requires i < |events|
  {
    OwnHalt(cfg, doom, Replay(cfg, doom, events[..i]), events[i])
  }

  /** The last own block or halt is at `i`. */
  ghost predicate LastOwnHalt(cfg: Config, doom: DoomSettings, events: seq<Event>, i: nat) {
    && i < |events| && OwnHaltAt(cfg, doom, events, i).Some?
    && forall j :: i < j < |events| ==> OwnHaltAt(cfg, doom, events, j).None?
  }

  /** There is no own block or halt, and the first external decision is at `i`. */
  ghost predicate FirstExternal(cfg: Config, doom: DoomSettings, events: seq<Event>, i: nat) {
    && i < |events| && events[i].External?
    && (forall j :: 0 <= j < i ==> !events[j].External?)
    && (forall j :: 0 <= j < |events| ==> OwnHaltAt(cfg, doom, events, j).None?)
  }

  /** Nothing that could halt has happened. */
  ghost predicate NeverHalted(cfg: Config, doom: DoomSettings, events: seq<Event>) {
    forall j :: 0 <= j < |events| ==> !events[j].External? && OwnHaltAt(cfg, doom, events, j).None?
  }

  lemma ReplayStep(cfg: Config, doom: DoomSettings, front: seq<Event>, e: Event)
    ensures Replay(cfg, doom, front + [e]) == Observe(cfg, doom, Replay(cfg, doom, front), e)
    ensures OwnHaltAt(cfg, doom, front + [e], |front|) == OwnHalt(cfg, doom, Replay(cfg, doom, front), e)
    ensures forall i :: 0 <= i < |front| ==> OwnHaltAt(cfg, doom, front + [e], i) == OwnHaltAt(cfg, doom, front, i)
  {
    hide Observe, OwnHalt;
    var events := front + [e];
    assert events[..|front|] == front;
    forall i | 0 <= i < |front| ensures OwnHaltAt(cfg, doom, events, i) == OwnHaltAt(cfg, doom, front, i) {
      assert events[..i] == front[..i] && events[i] == front[i];
    }
  }

  lemma OwnHaltBefore(cfg: Config, doom: DoomSettings, front: seq<Event>, e: Event, i: nat)
    ensures LastOwnHalt(cfg, doom, front + [e], i) ==>
              if i == |front| then
                OwnHalt(cfg, doom, Replay(cfg, doom, front), e).Some?
              else
                && LastOwnHalt(cfg, doom, front, i)
                && OwnHaltAt(cfg, doom, front + [e], i) == OwnHaltAt(cfg, doom, front, i)
                && OwnHaltAt(cfg, doom, front, i).Some? && OwnHalt(cfg, doom, Replay(cfg, doom, front), e).None?
  {
    ReplayStep(cfg, doom, front, e);
    hide Observe, OwnHalt, Replay, OwnHaltAt;
    assert LastOwnHalt(cfg, doom, front + [e], i) ==>
           i <= |front| && OwnHaltAt(cfg, doom, front + [e], i).Some?
           && (i < |front| ==> OwnHaltAt(cfg, doom, front + [e], |front|).None?);
  }

  lemma ExternalBefore(cfg: Config, doom: DoomSettings, front: seq<Event>, e: Event, i: nat)
    ensures FirstExternal(cfg, doom, front + [e], i) ==>
              && OwnHalt(cfg, doom, Replay(cfg, doom, front), e).None?
              && if i == |front| then e.External? && NeverHalted(cfg, doom, front)
                 else FirstExternal(cfg, doom, front, i) && (front + [e])[i] == front[i]
  {
    ReplayStep(cfg, doom, front, e);
    hide Observe, OwnHalt, Replay, OwnHaltAt;
    var events := front + [e];
    if FirstExternal(cfg, doom, events, i) {
      assert OwnHaltAt(cfg, doom, events, |front|).None?;
      forall j | 0 <= j < |front| ensures events[j] == front[j] && OwnHaltAt(cfg, doom, front, j).None? {
        assert OwnHaltAt(cfg, doom, events, j).None?;
      }
    }
  }

  lemma ObservedHalt(cfg: Config, doom: DoomSettings, t: Turn, e: Event)
    ensures var own, halt := OwnHalt(cfg, doom, t, e), Observe(cfg, doom, t, e).halt;
            && (own.Some? ==> halt == own && !e.External?)
            && (own.None? && e.External? ==> halt == if t.halt.None? then Some(e.decision) else t.halt)
            && (own.None? && !e.External? ==> halt == t.halt)
  {
    hide BeforeDecision, AfterDecision;
  }

  lemma LatchStep(cfg: Config, doom: DoomSettings, front: seq<Event>, e: Event)
    requires forall i: nat :: LastOwnHalt(cfg, doom, front, i) ==>
               Replay(cfg, doom, front).halt == OwnHaltAt(cfg, doom, front, i)
    requires forall i: nat :: FirstExternal(cfg, doom, front, i) ==>
               Replay(cfg, doom, front).halt == Some(front[i].decision)
    requires Replay(cfg, doom, front).halt.None? <==> NeverHalted(cfg, doom, front)
    ensures var events, halt := front + [e], Replay(cfg, doom, front + [e]).halt;
            && (forall i: nat :: LastOwnHalt(cfg, doom, events, i) ==> halt == OwnHaltAt(cfg, doom, events, i))
            && (forall i: nat :: FirstExternal(cfg, doom, events, i) ==> halt == Some(events[i].decision))
  {
    ReplayStep(cfg, doom, front, e);
    ObservedHalt(cfg, doom, Replay(cfg, doom, front), e);
    forall i: nat { OwnHaltBefore(cfg, doom, front, e, i); }
    forall i: nat { ExternalBefore(cfg, doom, front, e, i); }
    hide Observe, OwnHalt, Replay, OwnHaltAt, NeverHalted;
    assert forall i: nat :: LastOwnHalt(cfg, doom, front + [e], i) ==> i <= |front|;
    assert forall i: nat :: FirstExternal(cfg, doom, front + [e], i) ==> i <= |front|;
    hide LastOwnHalt, FirstExternal;
  }

  /** The halt decision, whatever the events, is the last block or halt of the controller's own; when
      there is none, the first decision recorded from outside; and unset only when there is neither. */
  lemma {:induction false} HaltIsFinal(cfg: Config, doom: DoomSettings, events: seq<Event>)
    ensures var halt := Replay(cfg, doom, events).halt;
            && (forall i: nat :: LastOwnHalt(cfg, doom, events, i) ==> halt == OwnHaltAt(cfg, doom, events, i))
            && (forall i: nat :: FirstExternal(cfg, doom, events, i) ==> halt == Some(events[i].decision))
            && (halt.None? <==> NeverHalted(cfg, doom, events))
  {
    if events != [] {
      var n := |events| - 1;
      var front, e := events[..n], events[n];
      assert events == front + [e];
      HaltIsFinal(cfg, doom, front);
      ReplayStep(cfg, doom, front, e);
      ObservedHalt(cfg, doom, Replay(cfg, doom, front), e);
      hide Observe, OwnHalt, Replay, OwnHaltAt;
      LatchStep(cfg, doom, front, e);
      assert NeverHalted(cfg, doom, events) <==>
             NeverHalted(cfg, doom, front) && !e.External? && OwnHaltAt(cfg, doom, events, n).None?;
    }
  }

  /** Once set, the halt decision stays set until the next reset. */
  lemma {:induction false} HaltStaysSet(cfg: Config, doom: DoomSettings, events: seq<Event>, more: seq<Event>)
    requires Replay(cfg, doom, events).halt.Some?
    ensures Replay(cfg, doom, events + more).halt.Some?
  {
    if more == [] {
      assert events + more == events;
    } else {
      var m := |more| - 1;
      HaltStaysSet(cfg, doom, events, more[..m]);
      assert events + more == (events + more[..m]) + [more[m]];
      ReplayStep(cfg, doom, events + more[..m], more[m]);
      ObservedHalt(cfg, doom, Replay(cfg, doom, events + more[..m]), more[m]);
    }
  }

  /** The controller itself, fed the events, has these logs and this halt decision. */
  method ReplayController(c: ToolCallGuardrailController, events: seq<Event>)
    modifies c
    ensures c.Valid()
    ensures var t := Replay(c.config, c.doom, events);
            c.attempts == t.attempts && c.log == t.log && c.haltDecision == t.halt
  {
    hide BeforeDecision, AfterDecision, CountersFor, ProgressFor, WasNudged, Suffix;
    c.ResetForTurn();
    for i := 0 to |events|
      invariant c.Valid()
      invariant var t := Replay(c.config, c.doom, events[..i]);
                c.attempts == t.attempts && c.log == t.log && c.haltDecision == t.halt
    {
      assert events[..i+1][..i] == events[..i];
      match events[i]
      case Before(sig) => var _ := c.BeforeCall(sig);
      case After(o) => var _ := c.AfterCall(o.sig, o.failed, o.hash);
      case External(d) => c.SetHaltDecision(d);
    }
    assert events[..|events|] == events;
  }

  // ---------------------------------------------------------------- the bounds, on the controller

  /** The bounds as the controller's own tables show them. */
  ghost predicate TablesBounded(c: ToolCallGuardrailController)
    reads c
  {
    && (forall s :: s in c.exactFailureCounts ==>
          c.exactFailureCounts[s] <= Max(c.config.exactFailureBlockAfter, 0) + (if s in c.doomSoftNudged then 1 else 0))
    && (forall s :: s in c.noProgress ==>
          c.noProgress[s].1 <= Max(c.config.noProgressBlockAfter, 1) + (if s in c.doomSoftNudged then 1 else 0))
    && (forall tool :: tool in c.sameToolFailureCounts ==>
          c.sameToolFailureCounts[tool] <= Max(c.config.sameToolFailureHaltAfter, 1))
  }

  lemma BoundedTables(c: ToolCallGuardrailController, t: Turn)
    requires c.Valid() && c.config.hardStopEnabled && c.attempts == t.attempts && c.log == t.log
    requires Bounded(c.config, c.doom, t)
    ensures TablesBounded(c)
  {
    hide WasNudged, ExactFailures, ToolFailures, Repeats, LastHash, IsIdempotent, Suffix;
    assert forall s :: Grace(c.doom, t, s) == if s in c.doomSoftNudged then 1 else 0;
  }

  /** The controller, driven by such a caller from the start of a turn, has exactly these logs and
      this halt decision, so the bounds above are bounds on its own counters. */
  method DriveController(c: ToolCallGuardrailController, plan: seq<Outcome>)
    modifies c
    ensures c.Valid()
    ensures var t := Drive(c.config, c.doom, plan);
            c.attempts == t.attempts && c.log == t.log && c.haltDecision == t.halt
    ensures c.config.hardStopEnabled ==> TablesBounded(c)
  {
    hide BeforeDecision, AfterDecision, CountersFor, ProgressFor, WasNudged, Suffix;
    c.ResetForTurn();
    for i := 0 to |plan|
      invariant c.Valid()
      invariant var t := Drive(c.config, c.doom, plan[..i]);
                c.attempts == t.attempts && c.log == t.log && c.haltDecision == t.halt
    {
      var o := plan[i];
      assert plan[..i+1][..i] == plan[..i];
      if c.haltDecision.None? {
        var d := c.BeforeCall(o.sig);
        if d.AllowsExecution() {
          var _ := c.AfterCall(o.sig, o.failed, o.hash);
        }
      }
    }
    assert plan[..|plan|] == plan;
    if c.config.hardStopEnabled {
      RetriesAreBounded(c.config, c.doom, plan);
      BoundedTables(c, Drive(c.config, c.doom, plan));
    }
  }
}
