/** Placing the compaction summary in the rebuilt transcript. */
module CompactionPhase {
  import opened Transcript

  datatype InitialContextInjection = DoNotInject | BeforeLastUser

  const COMPACTION_MARK := "[CONTEXT COMPACTION"

  predicate Contains(s: string, sub: string) {
    exists i :: 0 <= i <= |s| - |sub| && sub <= s[i..]
  }

  /** A user message that is not itself a compaction summary. */
  predicate IsRealUser(m: Message) {
    m.Message? && m.role == "user" && !Contains(m.content, COMPACTION_MARK)
  }

  lemma ContainsMeans(s: string, sub: string)
    ensures Contains(s, sub) <==> exists a, b :: s == a + sub + b
  {
    if i :| 0 <= i <= |s| - |sub| && sub <= s[i..] {
      assert s == s[..i] + sub + s[i..][|sub|..];
    }
    if a, b :| s == a + sub + b {
      assert sub <= s[|a|..] by { assert s[|a|..] == sub + b; }
    }
  }

  /** A user message counts unless the text of a compaction summary occurs in it. */
  lemma RealUserMeans(m: Message)
    ensures IsRealUser(m) <==>
              m.Message? && m.role == "user" && forall a, b :: m.content != a + "[CONTEXT COMPACTION" + b
  {
    if m.Message? {
      ContainsMeans(m.content, COMPACTION_MARK);
      assert COMPACTION_MARK == "[CONTEXT COMPACTION";
    }
    hide Contains;
  }

  /** `k` is the place of the last real user message. */
  ghost predicate IsLastUser(ms: seq<Message>, k: nat) {
    k < |ms| && IsRealUser(ms[k]) && forall j :: k < j < |ms| ==> !IsRealUser(ms[j])
  }

  /** The output is the input with the summary inserted at `at`. */
  ghost predicate InsertedAt(system: seq<Message>, headTail: seq<Message>, summary: Message, at: nat,
                             out: seq<Message>)
  {
    && at <= |headTail| && |out| == |system| + |headTail| + 1
    && (forall i :: 0 <= i < |system| ==> out[i] == system[i])
    && (forall i :: 0 <= i < at ==> out[|system| + i] == headTail[i])
    && out[|system| + at] == summary
    && (forall i :: at <= i < |headTail| ==> out[|system| + i + 1] == headTail[i])
  }

  /** Blocks are whole in both parts, and the summary is a plain row. */
  ghost predicate SoundPieces(system: seq<Message>, headTail: seq<Message>, summary: Message) {
    WellFormed(system) && WellFormed(headTail) && !IsToolRow(summary) && !IsCallRow(summary)
  }

  lemma PartsInOrder(system: seq<Message>, headTail: seq<Message>, summary: Message, at: nat)
    requires at <= |headTail|
    ensures InsertedAt(system, headTail, summary, at, system + headTail[..at] + [summary] + headTail[at..])
  {
  }

  lemma UserIsNoToolRow(m: Message)
    requires IsRealUser(m)
    ensures !IsToolRow(m)
  {
    assert "user" != "tool" by { assert "user"[0] != "tool"[0]; }
  }

  lemma SummaryAlone(summary: Message)
    requires !IsToolRow(summary) && !IsCallRow(summary)
    ensures WellFormed([summary])
  {
    assert [summary][1..] == [];
  }

  /** Before a user message, or at the front, the summary never splits a block of call and results. */
  lemma PlacementKeepsBlocks(system: seq<Message>, headTail: seq<Message>, summary: Message, at: nat)
    requires at == 0 || (at < |headTail| && IsRealUser(headTail[at]))
    ensures SoundPieces(system, headTail, summary) ==> WellFormed(system + headTail[..at] + [summary] + headTail[at..])
  {
    if SoundPieces(system, headTail, summary) {
      if at > 0 {
        UserIsNoToolRow(headTail[at]);
        NonToolRowIsBoundary(headTail, at);
      } else {
        assert headTail[0..] == headTail && headTail[..0] == [];
      }
      if at > 0 { BoundarySplits(headTail, at); }
      SummaryAlone(summary);
      hide WellFormed;
      WellFormedConcat(system, headTail[..at]);
      WellFormedConcat(system + headTail[..at], [summary]);
      WellFormedConcat(system + headTail[..at] + [summary], headTail[at..]);
    }
  }

  lemma Inserted(system: seq<Message>, headTail: seq<Message>, summary: Message, at: nat)
    requires at == 0 || (at < |headTail| && IsRealUser(headTail[at]))
    ensures InsertedAt(system, headTail, summary, at, system + headTail[..at] + [summary] + headTail[at..])
    ensures SoundPieces(system, headTail, summary) ==> WellFormed(system + headTail[..at] + [summary] + headTail[at..])
    ensures at == 0 ==> system + headTail[..at] + [summary] + headTail[at..] == system + [summary] + headTail
  {
    hide *;
    PlacementKeepsBlocks(system, headTail, summary, at);
    PartsInOrder(system, headTail, summary, at);
    assert system + headTail[..0] == system && headTail[0..] == headTail;
  }

  /** No row from `k` on is a real user message. */
  ghost predicate NoneFrom(ms: seq<Message>, k: int) {
    forall j :: 0 <= k <= j < |ms| ==> !IsRealUser(ms[j])
  }

  lemma NoneAtEnd(ms: seq<Message>)
    ensures NoneFrom(ms, |ms|)
  {
  }

  lemma RealUser(ms: seq<Message>, i: nat)
    requires i < |ms|
    ensures IsRealUser(ms[i]) <==> ms[i].Message? && ms[i].role == "user" && !Contains(ms[i].content, COMPACTION_MARK)
    ensures NoneFrom(ms, i + 1) && !IsRealUser(ms[i]) ==> NoneFrom(ms, i)
    ensures NoneFrom(ms, i + 1) && IsRealUser(ms[i]) ==> IsLastUser(ms, i)
  {
    hide Contains;
  }

  lemma NoUserInNothing()
    ensures !exists k :: IsLastUser([], k)
  {
  }

  lemma LastUserFound(ms: seq<Message>, k: int)
    requires if k < 0 then NoneFrom(ms, 0) else IsLastUser(ms, k)
    ensures k < 0 ==> !exists j :: IsLastUser(ms, j)
    ensures k >= 0 ==> k < |ms| && IsRealUser(ms[k])
  {
    hide IsRealUser;
  }

  /** `apply_summary_placement`: nothing is lost, repeated or reordered; under injection the summary
      sits right before the last real user message, and otherwise, or when there is none, right after
      the system messages. */
  method ApplySummaryPlacement(system: seq<Message>, headTail: seq<Message>, summary: Message,
                               injection: InitialContextInjection)
    returns (out: seq<Message>, ghost at: nat)
    ensures InsertedAt(system, headTail, summary, at, out)
    ensures if injection.BeforeLastUser? && exists k :: IsLastUser(headTail, k) then IsLastUser(headTail, at)
            else at == 0
    ensures SoundPieces(system, headTail, summary) ==> WellFormed(out)
  {
    hide *;
    at := 0;
    Inserted(system, headTail, summary, 0);
    if injection.DoNotInject? {
      return system + [summary] + headTail, at;
    }
    if headTail == [] {
      NoUserInNothing();
      assert system + [summary] + headTail == system + [summary];
      return system + [summary], at;
    }
    NoneAtEnd(headTail);
    var lastUser := -1;
    var i := |headTail| - 1;
    while i >= 0
      invariant -1 <= i < |headTail| && lastUser == -1
      invariant NoneFrom(headTail, i + 1)
    {
      RealUser(headTail, i);
      if headTail[i].Message? && headTail[i].role == "user" {
        if !Contains(headTail[i].content, COMPACTION_MARK) {
          lastUser := i;
          break;
        }
      }
      i := i - 1;
    }
    LastUserFound(headTail, lastUser);
    if lastUser < 0 {
      return system + [summary] + headTail, at;
    }
    Inserted(system, headTail, summary, lastUser);
    return system + headTail[..lastUser] + [summary] + headTail[lastUser..], lastUser;
  }
}
