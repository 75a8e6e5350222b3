/** The per-turn tool-call guardrail.  The controller keeps counters, a sixteen-entry history and a
    nudged set; the specification speaks only of the full logs of the turn. */
module ToolGuardrails {
  import opened Tasks

  const IDEMPOTENT_TOOLS: set<string> := {
    "read_file", "search_code", "search_files", "list_directory", "git_status", "git_diff", "git_log",
    "skills_list", "skill_view", "butler_recall", "list_runtime_jobs"}

  const MUTATING_TOOLS: set<string> := {
    "run_shell", "terminal", "write_file", "edit_file", "patch", "git_add", "git_commit", "run_runtime_job",
    "download_file"}

  const HISTORY_LIMIT := 16

  datatype Signature = Signature(tool: string, argsHash: string)

  datatype Action = Allow | Warn | Ask | Block | Halt

  datatype Code =
    | Plain
    | SoftNudge
    | DoomLoop
    | ExactFailureBlock
    | NoProgressBlock
    | SameToolHalt
    | ExactFailureWarning
    | SameToolWarning
    | NoProgressWarning

  datatype Decision = Decision(action: Action, code: Code, tool: string, count: int) {
    predicate AllowsExecution() { action.Allow? || action.Warn? }
  }

  datatype Config = Config(
    warningsEnabled: bool,
    hardStopEnabled: bool,
    exactFailureWarnAfter: int,
    exactFailureBlockAfter: int,
    sameToolFailureWarnAfter: int,
    sameToolFailureHaltAfter: int,
    noProgressWarnAfter: int,
    noProgressBlockAfter: int)

  /** The three environment settings; the threshold is clamped at zero, which switches the check off. */
  datatype DoomSettings = DoomSettings(threshold: nat, askMode: bool, softNudge: bool)

  /** One executed call: its signature, whether it failed, the hash of its result. */
  datatype Outcome = Outcome(sig: Signature, failed: bool, hash: string)

  predicate IsIdempotent(tool: string) {
    tool !in MUTATING_TOOLS && tool in IDEMPOTENT_TOOLS
  }

  // ---------------------------------------------------------------- the outcome log

  function EventsOf(log: seq<Outcome>, sig: Signature): seq<Outcome> {
    if log == [] then []
    else
      var front, last := EventsOf(log[..|log|-1], sig), log[|log|-1];
      if last.sig == sig then front + [last] else front
  }

  function ToolEventsOf(log: seq<Outcome>, tool: string): seq<Outcome> {
    if log == [] then []
    else
      var front, last := ToolEventsOf(log[..|log|-1], tool), log[|log|-1];
      if last.sig.tool == tool then front + [last] else front
  }

  /** The `k` last events are failures, and no more than that. */
  ghost predicate IsFailureRun(events: seq<Outcome>, k: nat) {
    && k <= |events|
    && (forall i :: |events| - k <= i < |events| ==> events[i].failed)
    && (k < |events| ==> !events[|events|-k-1].failed)
  }

  /** The `k` last events are successes with the last result, and no more than that. */
  ghost predicate IsStaleRun(events: seq<Outcome>, k: nat) {
    && k <= |events|
    && (forall i :: |events| - k <= i < |events| ==> !events[i].failed && events[i].hash == events[|events|-1].hash)
    && (k < |events| ==> events[|events|-k-1].failed || events[|events|-k-1].hash != events[|events|-1].hash)
  }

  function FailureRun(events: seq<Outcome>): nat {
    if events == [] || !events[|events|-1].failed then 0 else FailureRun(events[..|events|-1]) + 1
  }

  function StaleRun(events: seq<Outcome>): nat {
    if events == [] || events[|events|-1].failed then 0
    else if |events| > 1 && !events[|events|-2].failed && events[|events|-2].hash == events[|events|-1].hash
    then StaleRun(events[..|events|-1]) + 1
    else 1
  }

  lemma {:induction false} FailureRunIsLongest(events: seq<Outcome>)
    ensures IsFailureRun(events, FailureRun(events))
  {
    if events != [] && events[|events|-1].failed {
      FailureRunIsLongest(events[..|events|-1]);
    }
  }

  lemma {:induction false} StaleRunIsLongest(events: seq<Outcome>)
    ensures IsStaleRun(events, StaleRun(events))
  {
    if |events| > 1 && !events[|events|-1].failed
       && !events[|events|-2].failed && events[|events|-2].hash == events[|events|-1].hash {
      StaleRunIsLongest(events[..|events|-1]);
    }
  }

  /** Failures of this very call since it last succeeded. */
  function ExactFailures(log: seq<Outcome>, sig: Signature): nat { FailureRun(EventsOf(log, sig)) }

  /** Failures of this tool, whatever the arguments, since any call of it last succeeded. */
  function ToolFailures(log: seq<Outcome>, tool: string): nat { FailureRun(ToolEventsOf(log, tool)) }

  /** How often in a row this call has just returned the same result. */
  function Repeats(log: seq<Outcome>, sig: Signature): nat { StaleRun(EventsOf(log, sig)) }

  // ---------------------------------------------------------------- the attempt log

  function Suffix<T>(s: seq<T>, k: nat): seq<T> {
    if |s| <= k then s else s[|s|-k..]
  }

  predicate AllSame<T(==)>(s: seq<T>) {
    forall i :: 0 <= i < |s| ==> s[i] == s[0]
  }

  /** What the doom-loop check looks at: the last `threshold` attempts, but never more than sixteen. */
  function Tail(doom: DoomSettings, attempts: seq<Signature>): seq<Signature> {
    Suffix(attempts, if doom.threshold < HISTORY_LIMIT then doom.threshold else HISTORY_LIMIT)
  }

  predicate NudgeDue(doom: DoomSettings, attempts: seq<Signature>) {
    var tail := Tail(doom, attempts);
    doom.softNudge && doom.threshold > 1 && |tail| >= doom.threshold - 1 && AllSame(tail)
  }

  predicate Doomed(doom: DoomSettings, attempts: seq<Signature>) {
    var tail := Tail(doom, attempts);
    doom.threshold > 0 && |tail| >= doom.threshold && AllSame(tail)
  }

  /** `sig` has been due a nudge at some attempt of the log. */
  predicate WasNudged(doom: DoomSettings, attempts: seq<Signature>, sig: Signature) {
    exists i :: 0 <= i < |attempts| && attempts[i] == sig && NudgeDue(doom, attempts[..i+1])
  }

  // ---------------------------------------------------------------- decisions, told from the logs

  function Nudge(doom: DoomSettings, attempts: seq<Signature>, sig: Signature): Decision {
    Decision(Warn, SoftNudge, sig.tool, |Tail(doom, attempts)|)
  }

  function BeforeDecision(cfg: Config, doom: DoomSettings, attempts: seq<Signature>, log: seq<Outcome>,
                          sig: Signature): Decision
  {
    var now := attempts + [sig];
    if !cfg.hardStopEnabled then Decision(Allow, Plain, sig.tool, 0)
    else if NudgeDue(doom, now) && !WasNudged(doom, attempts, sig) then Nudge(doom, now, sig)
    else if Doomed(doom, now) then Decision(if doom.askMode then Ask else Block, DoomLoop, sig.tool, doom.threshold)
    else if ExactFailures(log, sig) >= cfg.exactFailureBlockAfter then
      Decision(Block, ExactFailureBlock, sig.tool, ExactFailures(log, sig))
    else if IsIdempotent(sig.tool) && Repeats(log, sig) > 0 && Repeats(log, sig) >= cfg.noProgressBlockAfter then
      Decision(Block, NoProgressBlock, sig.tool, Repeats(log, sig))
    else Decision(Allow, Plain, sig.tool, 0)
  }

  /** `log` already ends with the call being judged. */
  function AfterDecision(cfg: Config, log: seq<Outcome>, o: Outcome): Decision {
    var tool, exact, same, repeats := o.sig.tool, ExactFailures(log, o.sig), ToolFailures(log, o.sig.tool),
        Repeats(log, o.sig);
    if o.failed then
      if cfg.hardStopEnabled && same >= cfg.sameToolFailureHaltAfter then Decision(Halt, SameToolHalt, tool, same)
      else if cfg.warningsEnabled && exact >= cfg.exactFailureWarnAfter then
          Decision(Warn, ExactFailureWarning, tool, exact)
      else if cfg.warningsEnabled && same >= cfg.sameToolFailureWarnAfter then
          Decision(Warn, SameToolWarning, tool, same)
      else Decision(Allow, Plain, tool, exact)
    else if !IsIdempotent(tool) then Decision(Allow, Plain, tool, 0)
    else if cfg.warningsEnabled && repeats >= cfg.noProgressWarnAfter then
        Decision(Warn, NoProgressWarning, tool, repeats)
    else Decision(Allow, Plain, tool, repeats)
  }

  // ---------------------------------------------------------------- how the logs move

  lemma EventsStep(log: seq<Outcome>, o: Outcome, sig: Signature)
    ensures EventsOf(log + [o], sig) == if o.sig == sig then EventsOf(log, sig) + [o] else EventsOf(log, sig)
    ensures ToolEventsOf(log + [o], sig.tool) == if o.sig.tool == sig.tool then ToolEventsOf(log, sig.tool) + [o]
              else ToolEventsOf(log, sig.tool)
  {
    assert (log + [o])[..|log|] == log;
  }

  lemma ExactStep(log: seq<Outcome>, o: Outcome, sig: Signature)
    ensures ExactFailures(log + [o], sig) ==
            if o.sig != sig then ExactFailures(log, sig) else if o.failed then ExactFailures(log, sig) + 1 else 0
  {
    EventsStep(log, o, sig);
    var ev := EventsOf(log, sig);
    assert (ev + [o])[..|ev|] == ev;
  }

  lemma ToolStep(log: seq<Outcome>, o: Outcome, tool: string)
    ensures ToolFailures(log + [o], tool) ==
            if o.sig.tool != tool then ToolFailures(log, tool) else if o.failed then ToolFailures(log, tool) + 1 else 0
  {
    EventsStep(log, o, Signature(tool, ""));
    var ev := ToolEventsOf(log, tool);
    assert (ev + [o])[..|ev|] == ev;
  }

  /** The result of the last event of `sig`, where there is one. */
  function LastHash(log: seq<Outcome>, sig: Signature): string {
    var ev := EventsOf(log, sig);
    if ev == [] then "" else ev[|ev|-1].hash
  }

  lemma RepeatsStep(log: seq<Outcome>, o: Outcome, sig: Signature)
    ensures o.sig != sig ==>
              Repeats(log + [o], sig) == Repeats(log, sig) && LastHash(log + [o], sig) == LastHash(log, sig)
    ensures o.sig == sig && o.failed ==> Repeats(log + [o], sig) == 0
    ensures o.sig == sig && !o.failed ==>
              && LastHash(log + [o], sig) == o.hash
              && Repeats(log + [o], sig) ==
                 (if Repeats(log, sig) > 0 && LastHash(log, sig) == o.hash then Repeats(log, sig) + 1 else 1)
  {
    EventsStep(log, o, sig);
    var ev := EventsOf(log, sig);
    assert (ev + [o])[..|ev|] == ev;
  }

  lemma TailOfHistory(doom: DoomSettings, attempts: seq<Signature>)
    ensures Suffix(Suffix(attempts, HISTORY_LIMIT), doom.threshold) == Tail(doom, attempts)
  {
  }

  lemma HistoryStep(attempts: seq<Signature>, sig: Signature)
    ensures Suffix(Suffix(attempts, HISTORY_LIMIT) + [sig], HISTORY_LIMIT) == Suffix(attempts + [sig], HISTORY_LIMIT)
  {
  }

  lemma NudgedStep(doom: DoomSettings, attempts: seq<Signature>, sig: Signature, x: Signature)
    ensures WasNudged(doom, attempts + [sig], x) <==>
            WasNudged(doom, attempts, x) || (x == sig && NudgeDue(doom, attempts + [sig]))
  {
    var now := attempts + [sig];
    assert now[..|now|] == now;
    forall i | 0 <= i < |attempts| ensures now[..i+1] == attempts[..i+1] && now[i] == attempts[i] {}
    hide NudgeDue;
    if WasNudged(doom, attempts, x) {
      var i :| 0 <= i < |attempts| && attempts[i] == x && NudgeDue(doom, attempts[..i+1]);
      assert now[i] == x && NudgeDue(doom, now[..i+1]);
    }
    if x == sig && NudgeDue(doom, now) {
      assert now[|attempts|] == x && NudgeDue(doom, now[..|attempts|+1]);
    }
  }

  // ---------------------------------------------------------------- tables against logs

  ghost predicate CountersFor(log: seq<Outcome>, exact: map<Signature, int>, same: map<string, int>) {
    && (forall s :: s in exact <==> ExactFailures(log, s) > 0)
    && (forall s :: s in exact ==> exact[s] == ExactFailures(log, s))
    && (forall t :: t in same <==> ToolFailures(log, t) > 0)
    && (forall t :: t in same ==> same[t] == ToolFailures(log, t))
  }

  ghost predicate ProgressFor(log: seq<Outcome>, progress: map<Signature, (string, int)>) {
    && (forall s :: s in progress <==> IsIdempotent(s.tool) && Repeats(log, s) > 0)
    && (forall s :: s in progress ==> progress[s] == (LastHash(log, s), Repeats(log, s)))
  }

  function CountOf<K>(m: map<K, int>, k: K): int {
    if k in m then m[k] else 0
  }

  lemma CountersSay(log: seq<Outcome>, exact: map<Signature, int>, same: map<string, int>, sig: Signature)
    requires CountersFor(log, exact, same)
    ensures CountOf(exact, sig) == ExactFailures(log, sig) && CountOf(same, sig.tool) == ToolFailures(log, sig.tool)
  {
    hide ExactFailures, ToolFailures;
  }

  lemma ProgressSays(log: seq<Outcome>, progress: map<Signature, (string, int)>, sig: Signature)
    requires ProgressFor(log, progress)
    ensures sig in progress <==> IsIdempotent(sig.tool) && Repeats(log, sig) > 0
    ensures sig in progress ==> progress[sig] == (LastHash(log, sig), Repeats(log, sig))
  {
    hide IsIdempotent, Repeats, LastHash;
  }

  lemma FailureCounted(log: seq<Outcome>, o: Outcome, exact: map<Signature, int>, same: map<string, int>)
    requires CountersFor(log, exact, same) && o.failed
    ensures CountersFor(log + [o], exact[o.sig := CountOf(exact, o.sig) + 1],
              same[o.sig.tool := CountOf(same, o.sig.tool) + 1])
  {
    hide ExactFailures, ToolFailures;
    forall s { ExactStep(log, o, s); }
    forall t { ToolStep(log, o, t); }
  }

  lemma SuccessCounted(log: seq<Outcome>, o: Outcome, exact: map<Signature, int>, same: map<string, int>)
    requires CountersFor(log, exact, same) && !o.failed
    ensures CountersFor(log + [o], exact - {o.sig}, same - {o.sig.tool})
  {
    hide ExactFailures, ToolFailures;
    forall s { ExactStep(log, o, s); }
    forall t { ToolStep(log, o, t); }
  }

  /** A failure, or any success of a tool that is not idempotent, voids the entry. */
  lemma ProgressVoided(log: seq<Outcome>, o: Outcome, progress: map<Signature, (string, int)>)
    requires ProgressFor(log, progress) && (o.failed || !IsIdempotent(o.sig.tool))
    ensures ProgressFor(log + [o], progress - {o.sig})
  {
    hide Repeats, LastHash, IsIdempotent;
    forall s { RepeatsStep(log, o, s); }
  }

  lemma ProgressCounted(log: seq<Outcome>, o: Outcome, progress: map<Signature, (string, int)>)
    requires ProgressFor(log, progress) && !o.failed && IsIdempotent(o.sig.tool)
    ensures ProgressFor(log + [o], progress[o.sig := (o.hash,
              if o.sig in progress && progress[o.sig].0 == o.hash then progress[o.sig].1 + 1 else 1)])
  {
    hide Repeats, LastHash, IsIdempotent;
    forall s { RepeatsStep(log, o, s); }
  }

  // ---------------------------------------------------------------- the controller

  lemma ThresholdZero(doom: DoomSettings, attempts: seq<Signature>)
    ensures doom.threshold == 0 ==> !NudgeDue(doom, attempts) && !Doomed(doom, attempts)
  {
  }

  lemma Conditions(doom: DoomSettings, attempts: seq<Signature>, tail: seq<Signature>)
    requires tail == Tail(doom, attempts) && doom.threshold > 0
    ensures NudgeDue(doom, attempts) <==>
            doom.softNudge && doom.threshold > 1 && |tail| >= doom.threshold - 1 && AllSame(tail)
    ensures Doomed(doom, attempts) <==> |tail| >= doom.threshold && AllSame(tail)
  {
  }

  class ToolCallGuardrailController {
    const config: Config
    const doom: DoomSettings
    var exactFailureCounts: map<Signature, int>
    var sameToolFailureCounts: map<string, int>
    var noProgress: map<Signature, (string, int)>
    var haltDecision: Option<Decision>
    var callHistory: seq<Signature>
    var doomSoftNudged: set<Signature>
    ghost var attempts: seq<Signature>
    ghost var log: seq<Outcome>

    ghost predicate HistoryMatches()
      reads `callHistory, `doomSoftNudged, `attempts
    {
      && callHistory == (if config.hardStopEnabled && doom.threshold > 0 then Suffix(attempts, HISTORY_LIMIT) else [])
      && (forall s :: s in doomSoftNudged <==> config.hardStopEnabled && WasNudged(doom, attempts, s))
    }

    /** Every table is what the logs of the turn say it is. */
    ghost predicate Valid()
      reads this
    {
      && CountersFor(log, exactFailureCounts, sameToolFailureCounts)
      && ProgressFor(log, noProgress)
      && HistoryMatches()
    }

    constructor (config: Config, doom: DoomSettings)
      ensures this.config == config && this.doom == doom && Valid()
      ensures attempts == [] && log == [] && haltDecision == None
    {
      this.config, this.doom := config, doom;
      exactFailureCounts, sameToolFailureCounts, noProgress := map[], map[], map[];
      haltDecision, callHistory, doomSoftNudged := None, [], {};
      attempts, log := [], [];
    }

    method ResetForTurn()
      modifies this
      ensures Valid() && attempts == [] && log == [] && haltDecision == None
    {
      exactFailureCounts, sameToolFailureCounts, noProgress := map[], map[], map[];
      haltDecision, callHistory, doomSoftNudged := None, [], {};
      attempts, log := [], [];
    }

    /** The first recorded halt wins here; only the guardrail's own later blocks replace it. */
    method SetHaltDecision(decision: Decision)
      requires Valid()
      modifies `haltDecision
      ensures Valid() && haltDecision == (if old(haltDecision).None? then Some(decision) else old(haltDecision))
    {
      if haltDecision.None? { haltDecision := Some(decision); }
    }

    /** The doom-loop part of `_before_call_locked`: history, nudge, block. */
    method CheckDoomLoop(sig: Signature) returns (verdict: Option<Decision>)
      requires HistoryMatches() && config.hardStopEnabled && doom.threshold > 0
      modifies `callHistory, `doomSoftNudged, `attempts
      ensures HistoryMatches() && attempts == old(attempts) + [sig]
      ensures verdict == if NudgeDue(doom, attempts) && !WasNudged(doom, old(attempts), sig) then
                Some(Nudge(doom, attempts, sig))
                         else if Doomed(doom, attempts) then
                           Some(Decision(if doom.askMode then Ask else Block, DoomLoop, sig.tool, doom.threshold))
                         else None
    {
      hide WasNudged, NudgeDue, Suffix, Doomed;
      HistoryStep(attempts, sig);
      TailOfHistory(doom, attempts + [sig]);
      forall x { NudgedStep(doom, attempts, sig, x); }
      attempts := attempts + [sig];
      var threshold := doom.threshold;
      callHistory := Suffix(callHistory + [sig], HISTORY_LIMIT);
      var tail := Suffix(callHistory, threshold);
      Conditions(doom, attempts, tail);
      var softAt := if threshold - 1 < 1 then 1 else threshold - 1;
      if doom.softNudge && threshold > 1 && |tail| >= softAt && AllSame(tail) && sig !in doomSoftNudged {
        doomSoftNudged := doomSoftNudged + {sig};
        return Some(Decision(Warn, SoftNudge, sig.tool, |tail|));
      }
      if |tail| >= threshold && AllSame(tail) {
        return Some(Decision(if doom.askMode then Ask else Block, DoomLoop, sig.tool, threshold));
      }
      return None;
    }

    /** The counter part: the same call failed, or stalled, too often. */
    method CheckCounters(sig: Signature) returns (d: Decision)
      requires CountersFor(log, exactFailureCounts, sameToolFailureCounts) && ProgressFor(log, noProgress)
      ensures d == if ExactFailures(log, sig) >= config.exactFailureBlockAfter then
                     Decision(Block, ExactFailureBlock, sig.tool, ExactFailures(log, sig))
                   else if IsIdempotent(sig.tool) && Repeats(log, sig) > 0
                       && Repeats(log, sig) >= config.noProgressBlockAfter then
                     Decision(Block, NoProgressBlock, sig.tool, Repeats(log, sig))
                   else Decision(Allow, Plain, sig.tool, 0)
    {
      hide ExactFailures, Repeats, ToolFailures, LastHash, IsIdempotent, CountersFor, ProgressFor;
      CountersSay(log, exactFailureCounts, sameToolFailureCounts, sig);
      ProgressSays(log, noProgress, sig);
      var exactCount := if sig in exactFailureCounts then exactFailureCounts[sig] else 0;
      if exactCount >= config.exactFailureBlockAfter {
        return Decision(Block, ExactFailureBlock, sig.tool, exactCount);
      }
      if IsIdempotent(sig.tool) {
        if sig in noProgress {
          var repeatCount := noProgress[sig].1;
          if repeatCount >= config.noProgressBlockAfter {
            return Decision(Block, NoProgressBlock, sig.tool, repeatCount);
          }
        }
      }
      return Decision(Allow, Plain, sig.tool, 0);
    }

    /** `_before_call_locked` with a silent loop detector. */
    method BeforeCall(sig: Signature) returns (d: Decision)
      requires Valid()
      modifies this
      ensures Valid() && attempts == old(attempts) + [sig] && log == old(log)
      ensures d == BeforeDecision(config, doom, old(attempts), log, sig)
      ensures haltDecision == if d.action.Block? then Some(d) else old(haltDecision)
    {
      hide ExactFailures, Repeats, ToolFailures, LastHash, IsIdempotent, WasNudged, NudgeDue, Suffix, Doomed;
      hide CountersFor, ProgressFor;
      if !config.hardStopEnabled {
        attempts := attempts + [sig];
        return Decision(Allow, Plain, sig.tool, 0);
      }
      var verdict: Option<Decision> := None;
      if doom.threshold > 0 {
        verdict := CheckDoomLoop(sig);
      } else {
        forall x { NudgedStep(doom, attempts, sig, x); }
        attempts := attempts + [sig];
        ThresholdZero(doom, attempts);
      }
      if verdict.Some? {
        d := verdict.value;
      } else {
        d := CheckCounters(sig);
      }
      if d.action.Block? { haltDecision := Some(d); }
    }

    /** The failure branch of `_after_call_locked`: both failure counters go up, progress is void. */
    method RecordFailure(sig: Signature, hash: string) returns (exactCount: int, sameCount: int)
      requires Valid()
      modifies `exactFailureCounts, `sameToolFailureCounts, `noProgress, `log
      ensures Valid() && log == old(log) + [Outcome(sig, true, hash)]
      ensures exactCount == ExactFailures(log, sig) && sameCount == ToolFailures(log, sig.tool)
    {
      hide ExactFailures, ToolFailures, CountersFor, ProgressFor, HistoryMatches;
      ghost var o := Outcome(sig, true, hash);
      FailureCounted(log, o, exactFailureCounts, sameToolFailureCounts);
      ProgressVoided(log, o, noProgress);
      exactCount := (if sig in exactFailureCounts then exactFailureCounts[sig] else 0) + 1;
      exactFailureCounts := exactFailureCounts[sig := exactCount];
      noProgress := noProgress - {sig};
      sameCount := (if sig.tool in sameToolFailureCounts then sameToolFailureCounts[sig.tool] else 0) + 1;
      sameToolFailureCounts := sameToolFailureCounts[sig.tool := sameCount];
      log := log + [o];
      CountersSay(log, exactFailureCounts, sameToolFailureCounts, sig);
    }

    /** The success branch: the failure counters are dropped, an idempotent repeat is counted. */
    method RecordSuccess(sig: Signature, hash: string) returns (repeatCount: int)
      requires Valid()
      modifies `exactFailureCounts, `sameToolFailureCounts, `noProgress, `log
      ensures Valid() && log == old(log) + [Outcome(sig, false, hash)]
      ensures IsIdempotent(sig.tool) ==> repeatCount == Repeats(log, sig)
    {
      hide IsIdempotent, Repeats, CountersFor, ProgressFor, HistoryMatches;
      ghost var o := Outcome(sig, false, hash);
      SuccessCounted(log, o, exactFailureCounts, sameToolFailureCounts);
      exactFailureCounts := exactFailureCounts - {sig};
      sameToolFailureCounts := sameToolFailureCounts - {sig.tool};
      repeatCount := 0;
      if !IsIdempotent(sig.tool) {
        ProgressVoided(log, o, noProgress);
        noProgress := noProgress - {sig};
      } else {
        ProgressCounted(log, o, noProgress);
        repeatCount := 1;
        if sig in noProgress && noProgress[sig].0 == hash {
          repeatCount := noProgress[sig].1 + 1;
        }
        noProgress := noProgress[sig := (hash, repeatCount)];
      }
      log := log + [o];
      ProgressSays(log, noProgress, sig);
    }

    /** `_after_call_locked`, told whether the call failed. */
    method AfterCall(sig: Signature, failed: bool, hash: string) returns (d: Decision)
      requires Valid()
      modifies this
      ensures Valid() && attempts == old(attempts) && log == old(log) + [Outcome(sig, failed, hash)]
      ensures d == AfterDecision(config, log, Outcome(sig, failed, hash))
      ensures haltDecision == if d.action.Halt? then Some(d) else old(haltDecision)
    {
      hide ExactFailures, Repeats, ToolFailures, LastHash, IsIdempotent, CountersFor, ProgressFor, HistoryMatches;
      if failed {
        var exactCount, sameCount := RecordFailure(sig, hash);
        if config.hardStopEnabled && sameCount >= config.sameToolFailureHaltAfter {
          d := Decision(Halt, SameToolHalt, sig.tool, sameCount);
          haltDecision := Some(d);
          return;
        }
        if config.warningsEnabled && exactCount >= config.exactFailureWarnAfter {
          return Decision(Warn, ExactFailureWarning, sig.tool, exactCount);
        }
        if config.warningsEnabled && sameCount >= config.sameToolFailureWarnAfter {
          return Decision(Warn, SameToolWarning, sig.tool, sameCount);
        }
        return Decision(Allow, Plain, sig.tool, exactCount);
      }
      var repeatCount := RecordSuccess(sig, hash);
      if !IsIdempotent(sig.tool) {
        return Decision(Allow, Plain, sig.tool, 0);
      }
      if config.warningsEnabled && repeatCount >= config.noProgressWarnAfter {
        return Decision(Warn, NoProgressWarning, sig.tool, repeatCount);
      }
      return Decision(Allow, Plain, sig.tool, repeatCount);
    }
  }
}
