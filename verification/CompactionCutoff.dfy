/** Where a transcript may be cut so that the summarised head and the kept tail hold together. */
module CompactionCutoff {
  import opened Transcript
  import opened Text

  function Clamp(proposed: int, n: nat): (start: nat)
    ensures start <= n
  {
    if proposed < 0 then 0 else if proposed > n then n else proposed
  }

  /** The first index from `start` on whose prefix has no unanswered call, or the end. */
  function FirstClosed(ms: seq<Message>, start: nat): (k: nat)
    requires start <= |ms|
    ensures start <= k <= |ms|
    decreases |ms| - start
  {
    if start == |ms| || Closed(ms[..start]) then start else FirstClosed(ms, start + 1)
  }

  lemma {:induction false} FirstClosedIsFirst(ms: seq<Message>, start: nat)
    requires start <= |ms|
    ensures var k := FirstClosed(ms, start);
            (k < |ms| ==> Closed(ms[..k])) && forall j :: start <= j < k ==> !Closed(ms[..j])
    decreases |ms| - start
  {
    hide Closed;
    if start < |ms| && !Closed(ms[..start]) {
      FirstClosedIsFirst(ms, start + 1);
    }
  }

  /** The first index from `k` on that holds no tool row. */
  function EndOfToolRows(ms: seq<Message>, k: nat): (e: nat)
    requires k <= |ms|
    ensures k <= e <= |ms| && (e < |ms| ==> !IsToolRow(ms[e]))
    ensures forall j :: k <= j < e ==> IsToolRow(ms[j])
    decreases |ms| - k
  {
    if k == |ms| || !IsToolRow(ms[k]) then k else EndOfToolRows(ms, k + 1)
  }

  /** The cut: the first closed index, moved past a call block that starts there. */
  function SafeCut(ms: seq<Message>, proposed: int): (cut: nat)
    ensures Clamp(proposed, |ms|) <= cut <= |ms|
  {
    var b := FirstClosed(ms, Clamp(proposed, |ms|));
    if b < |ms| && IsCallRow(ms[b]) && EndOfToolRows(ms, b + 1) > b + 1 then EndOfToolRows(ms, b + 1) else b
  }

  // ---------------------------------------------------------------- the loops

  lemma RowEffect(m: Message)
    ensures m.NotADict? ==> Opens(m) == Closes(m) == {}
    ensures m.Message? && m.role == "assistant" ==>
              Closes(m) == {} && Opens(m) == (set id | id in Stripped(m.callIds) && id != "")
    ensures m.Message? && m.role == "tool" ==>
              Opens(m) == {} && Closes(m) == if Strip(m.toolCallId) != "" then {Strip(m.toolCallId)} else {}
    ensures m.Message? && m.role != "assistant" && m.role != "tool" ==> Opens(m) == Closes(m) == {}
  {
    assert "assistant" != "tool" by { assert |"assistant"| != |"tool"|; }
  }

  /** What the loop does with one row. */
  lemma PendingStep(ms: seq<Message>, i: nat)
    requires i < |ms|
    ensures var m, pending, next := ms[i], After({}, ms[..i]), After({}, ms[..i+1]);
            if m.NotADict? then next == pending
            else if m.role == "assistant" then next == pending + set id | id in Stripped(m.callIds) && id != ""
            else if m.role == "tool" && Strip(m.toolCallId) != "" then next == pending - {Strip(m.toolCallId)}
            else next == pending
  {
    hide Opens, Closes, After, Strip;
    AfterStep({}, ms, i + 1);
    RowEffect(ms[i]);
  }

  /** `_prefix_tool_pairs_closed`. */
  method PrefixToolPairsClosed(ms: seq<Message>, boundary: nat) returns (closed: bool)
    requires boundary <= |ms|
    ensures closed <==> Closed(ms[..boundary])
    ensures closed <==> forall id, i :: !Unanswered(ms[..boundary], id, i)
  {
    ClosedMeans(ms[..boundary]);
    var pending: set<string> := {};
    assert ms[..0] == [];
    hide Unanswered, Strip;
    for i := 0 to boundary
      invariant pending == After({}, ms[..i])
    {
      PendingStep(ms, i);
      var msg := ms[i];
      if msg.NotADict? { continue; }
      if msg.role == "assistant" {
        pending := pending + (set id | id in Stripped(msg.callIds) && id != "");
      } else if msg.role == "tool" {
        var tid := Strip(msg.toolCallId);
        if tid != "" { pending := pending - {tid}; }
      }
    }
    return pending == {};
  }

  /** Some call of the first `k` rows is unanswered among them. */
  ghost predicate OpenBefore(ms: seq<Message>, k: nat)
    requires k <= |ms|
  {
    exists id, i :: Unanswered(ms[..k], id, i)
  }

  ghost predicate ToolRowAt(ms: seq<Message>, i: nat) {
    i < |ms| && ms[i].Message? && ms[i].role == "tool"
  }

  /** `b` is the first place from the proposal on, brought into range, that has no unanswered call before
      it, or the end. */
  ghost predicate IsFirstGap(ms: seq<Message>, proposed: int, b: nat) {
    var start := if proposed < 0 then 0 else if proposed > |ms| then |ms| else proposed;
    && start <= b <= |ms| && (forall j :: start <= j < b ==> OpenBefore(ms, j))
    && (b < |ms| ==> !OpenBefore(ms, b))
  }

  /** Where an assistant row with tool calls stands at `b` and tool rows follow it, the cut is the end of
      those rows; otherwise it is `b`. */
  ghost predicate IsPastBlock(ms: seq<Message>, b: nat, cut: nat) {
    if b < |ms| && ms[b].Message? && ms[b].role == "assistant" && ms[b].callIds != [] && ToolRowAt(ms, b + 1) then
      b + 1 < cut <= |ms| && (forall j :: b < j < cut ==> ToolRowAt(ms, j)) && !ToolRowAt(ms, cut)
    else
      cut == b
  }

  lemma OpenMeans(ms: seq<Message>, k: nat)
    requires k <= |ms|
    ensures OpenBefore(ms, k) <==> !Closed(ms[..k])
  {
    hide Closed, Unanswered;
    ClosedMeans(ms[..k]);
  }

  lemma FirstClosedMeans(ms: seq<Message>, proposed: int)
    ensures IsFirstGap(ms, proposed, FirstClosed(ms, Clamp(proposed, |ms|)))
  {
    hide OpenBefore, Closed, FirstClosed;
    var start := Clamp(proposed, |ms|);
    var b := FirstClosed(ms, start);
    FirstClosedIsFirst(ms, start);
    forall j | 0 <= j <= |ms| ensures OpenBefore(ms, j) <==> !Closed(ms[..j]) { OpenMeans(ms, j); }
  }

  lemma CallRowMeans(m: Message)
    ensures IsCallRow(m) <==> m.Message? && m.role == "assistant" && m.callIds != []
  {
  }

  lemma PastTheEnd(ms: seq<Message>)
    ensures !ToolRowAt(ms, |ms|)
  {
  }

  lemma ToolRowsMean(ms: seq<Message>, b: nat)
    requires b < |ms|
    ensures var e := EndOfToolRows(ms, b + 1);
            && b + 1 <= e <= |ms| && (forall j :: b < j < e ==> ToolRowAt(ms, j)) && !ToolRowAt(ms, e)
            && (e > b + 1 <==> ToolRowAt(ms, b + 1))
  {
    forall j | 0 <= j < |ms| ensures ToolRowAt(ms, j) <==> IsToolRow(ms[j]) { }
    hide ToolRowAt, IsToolRow;
    var e := EndOfToolRows(ms, b + 1);
    assert e == |ms| ==> !ToolRowAt(ms, e) by { PastTheEnd(ms); }
  }

  lemma PastBlockMeans(ms: seq<Message>, proposed: int)
    ensures IsPastBlock(ms, FirstClosed(ms, Clamp(proposed, |ms|)), SafeCut(ms, proposed))
  {
    hide FirstClosed, EndOfToolRows, IsCallRow, ToolRowAt;
    var b := FirstClosed(ms, Clamp(proposed, |ms|));
    if b < |ms| {
      CallRowMeans(ms[b]);
      ToolRowsMean(ms, b);
    }
  }

  /** The cut is the first gap, moved past the tool rows of a call row that stands there. */
  lemma CutMeans(ms: seq<Message>, proposed: int)
    ensures exists b :: IsFirstGap(ms, proposed, b) && IsPastBlock(ms, b, SafeCut(ms, proposed))
  {
    hide *;
    FirstClosedMeans(ms, proposed);
    PastBlockMeans(ms, proposed);
  }

  lemma ScanStep(ms: seq<Message>, start: nat)
    requires start <= |ms|
    ensures start == |ms| || Closed(ms[..start]) ==> FirstClosed(ms, start) == start
    ensures start < |ms| && !Closed(ms[..start]) ==> FirstClosed(ms, start) == FirstClosed(ms, start + 1)
  {
    hide Closed;
  }

  lemma SkipStep(ms: seq<Message>, k: nat)
    requires k <= |ms|
    ensures k == |ms| || !IsToolRow(ms[k]) ==> EndOfToolRows(ms, k) == k
    ensures k < |ms| && IsToolRow(ms[k]) ==> EndOfToolRows(ms, k) == EndOfToolRows(ms, k + 1)
  {
    hide IsToolRow;
  }

  /** `find_safe_tail_start`. */
  method FindSafeTailStart(ms: seq<Message>, proposed: int) returns (cut: nat)
    ensures cut == SafeCut(ms, proposed)
    ensures exists b :: IsFirstGap(ms, proposed, b) && IsPastBlock(ms, b, cut)
  {
    hide Closed, FirstClosed, EndOfToolRows, IsFirstGap, IsPastBlock, IsCallRow, IsToolRow, Clamp;
    CutMeans(ms, proposed);
    var n := |ms|;
    var start := Clamp(proposed, n);
    while start < n
      invariant start <= n && FirstClosed(ms, start) == FirstClosed(ms, Clamp(proposed, n))
    {
      ScanStep(ms, start);
      var closed := PrefixToolPairsClosed(ms, start);
      if closed { break; }
      start := start + 1;
    }
    ScanStep(ms, start);
    if start < n {
      if IsCallRow(ms[start]) {
        var end := start + 1;
        while end < n && IsToolRow(ms[end])
          invariant start + 1 <= end <= n && EndOfToolRows(ms, end) == EndOfToolRows(ms, start + 1)
        {
          SkipStep(ms, end);
          end := end + 1;
        }
        SkipStep(ms, end);
        if end > start + 1 { return end; }
      }
      return start;
    }
    return n;
  }

  // ---------------------------------------------------------------- the promise

  /** On a well-formed transcript the first closed index is the first boundary. */
  lemma FirstClosedIsBoundary(ms: seq<Message>, start: nat)
    requires WellFormed(ms) && start <= |ms|
    ensures Boundary(ms, FirstClosed(ms, start))
    ensures forall j :: start <= j < FirstClosed(ms, start) ==> !Boundary(ms, j)
  {
    hide Closed, Boundary, WellFormed, FirstClosed;
    var k := FirstClosed(ms, start);
    FirstClosedIsFirst(ms, start);
    if k < |ms| { ClosedIffBoundary(ms, k); } else { EndIsBoundary(ms); }
    forall j | start <= j < k ensures !Boundary(ms, j) { ClosedIffBoundary(ms, j); }
  }

  lemma ToolRowsEndWithUnit(ms: seq<Message>, b: nat)
    requires WellFormed(ms) && b < |ms| && Boundary(ms, b)
    ensures b + UnitSize(ms[b]) <= |ms| && EndOfToolRows(ms, b + 1) == b + UnitSize(ms[b])
    ensures Boundary(ms, b + UnitSize(ms[b]))
  {
    hide Boundary, WellFormed, IsToolRow;
    UnitAt(ms, b);
    UnitPositive(ms[b]);
    var e := b + UnitSize(ms[b]);
    if e < |ms| { UnitAt(ms, e); }
  }

  lemma CallUnit(m: Message)
    ensures IsCallRow(m) ==> UnitSize(m) > 1
  {
  }

  /** The cut on a well-formed transcript: the first boundary, or the one after it when a call block
      starts there. */
  lemma CutOnWellFormed(ms: seq<Message>, proposed: int)
    requires WellFormed(ms)
    ensures var b := FirstClosed(ms, Clamp(proposed, |ms|));
            && (b == |ms| ==> SafeCut(ms, proposed) == b)
            && (b < |ms| ==> SafeCut(ms, proposed) == if IsCallRow(ms[b]) then b + UnitSize(ms[b]) else b)
            && Boundary(ms, b) && Boundary(ms, SafeCut(ms, proposed))
  {
    hide Boundary, WellFormed, IsToolRow, IsCallRow, FirstClosed, EndOfToolRows, UnitSize;
    var b := FirstClosed(ms, Clamp(proposed, |ms|));
    FirstClosedIsBoundary(ms, Clamp(proposed, |ms|));
    if b < |ms| {
      ToolRowsEndWithUnit(ms, b);
      CallUnit(ms[b]);
    }
  }

  /** The cut splits a well-formed transcript into two: no call of the head waits for an answer in
      the tail, and no tool row of the tail answers a call of the head. */
  lemma CutIsSafe(ms: seq<Message>, proposed: int)
    requires WellFormed(ms)
    ensures Clamp(proposed, |ms|) <= SafeCut(ms, proposed) <= |ms|
    ensures Closed(ms[..SafeCut(ms, proposed)])
    ensures WellFormed(ms[..SafeCut(ms, proposed)]) && WellFormed(ms[SafeCut(ms, proposed)..])
  {
    hide Boundary, WellFormed, Closed, SafeCut;
    var cut := SafeCut(ms, proposed);
    CutOnWellFormed(ms, proposed);
    ClosedIffBoundary(ms, cut);
    BoundarySplits(ms, cut);
  }

  /** Some row strictly between `b` and `e` answers `id`. */
  ghost predicate AnsweredWithin(ms: seq<Message>, b: nat, e: nat, id: string)
    requires e <= |ms|
  {
    exists j :: b < j < e && id in Closes(ms[j])
  }

  lemma CallRowIsNoToolRow()
    ensures forall m :: !(IsCallRow(m) && IsToolRow(m))
  {
    assert "assistant" != "tool" by { assert |"assistant"| != |"tool"|; }
  }

  /** A call row with nothing but tool rows after it is settled when each of its calls is answered. */
  lemma BlockSettledIff(rows: seq<Message>)
    requires rows != [] && IsCallRow(rows[0]) && forall j :: 1 <= j < |rows| ==> IsToolRow(rows[j])
    ensures Closed(rows) <==> forall id :: id in Opens(rows[0]) ==> AnsweredWithin(rows, 0, |rows|, id)
  {
    CallRowIsNoToolRow();
    forall j | 1 <= j < |rows| ensures Opens(rows[j]) == {} {}
    assert Closes(rows[0]) == {};
    hide Opens, Closes, After, IsToolRow, IsCallRow;
    forall id ensures id in After({}, rows) <==> id in Opens(rows[0]) && !AnsweredWithin(rows, 0, |rows|, id) {
      PendingMeaning(rows, id);
      if i :| OpenSince(rows, id, i) { assert i == 0; }
      if id in Opens(rows[0]) && !AnsweredWithin(rows, 0, |rows|, id) { assert OpenSince(rows, id, 0); }
    }
  }

  lemma ShiftAnswered(ms: seq<Message>, b: nat, e: nat, id: string)
    requires b < e <= |ms|
    ensures AnsweredWithin(ms[b..][..e-b], 0, e - b, id) <==> AnsweredWithin(ms, b, e, id)
  {
    hide Closes;
    var rows := ms[b..][..e-b];
    if j :| b < j < e && id in Closes(ms[j]) { assert rows[j-b] == ms[j]; }
    if j :| 0 < j < e - b && id in Closes(rows[j]) { assert rows[j] == ms[b+j]; }
  }

  /** On any transcript at all: the head is free of unanswered calls exactly when the scan stopped
      before the end, or nothing is unanswered there, and a block it moved past is fully answered. */
  lemma CutClosedIff(ms: seq<Message>, proposed: int)
    ensures var b, cut := FirstClosed(ms, Clamp(proposed, |ms|)), SafeCut(ms, proposed);
            Closed(ms[..cut]) <==>
            if b == |ms| then Closed(ms)
            else cut > b ==> forall id :: id in Opens(ms[b]) ==> AnsweredWithin(ms, b, cut, id)
  {
    hide Closed, Opens, Closes, IsToolRow, IsCallRow, FirstClosed;
    var b, cut := FirstClosed(ms, Clamp(proposed, |ms|)), SafeCut(ms, proposed);
    FirstClosedIsFirst(ms, Clamp(proposed, |ms|));
    if b == |ms| {
      assert ms[..cut] == ms;
    } else if cut > b {
      var rows := ms[b..][..cut-b];
      ClosedThrough(ms, b, cut);
      assert rows[0] == ms[b] && forall j :: 1 <= j < |rows| ==> rows[j] == ms[b+j];
      BlockSettledIff(rows);
      forall id ensures AnsweredWithin(rows, 0, |rows|, id) <==> AnsweredWithin(ms, b, cut, id) {
        ShiftAnswered(ms, b, cut, id);
      }
    }
  }

  lemma NextBoundary(ms: seq<Message>, a: nat, b: nat)
    requires WellFormed(ms) && a < b <= |ms| && Boundary(ms, a) && Boundary(ms, b)
    ensures a + UnitSize(ms[a]) <= b
  {
    hide Boundary, WellFormed, IsToolRow, UnitSize;
    UnitAt(ms, a);
  }

  /** The first closed index moves forward with the proposal. */
  lemma {:induction false} FirstClosedMonotone(ms: seq<Message>, s: nat, t: nat)
    requires s <= t <= |ms|
    ensures FirstClosed(ms, s) <= FirstClosed(ms, t)
    decreases t - s
  {
    hide Closed;
    if s < t { FirstClosedMonotone(ms, s + 1, t); }
  }

  /** A later proposal never gives an earlier cut. */
  lemma CutIsMonotone(ms: seq<Message>, p: int, q: int)
    requires WellFormed(ms) && p <= q
    ensures SafeCut(ms, p) <= SafeCut(ms, q)
  {
    hide Boundary, WellFormed, IsToolRow, SafeCut, UnitSize, FirstClosed, IsCallRow, Closed;
    var a, b := FirstClosed(ms, Clamp(p, |ms|)), FirstClosed(ms, Clamp(q, |ms|));
    CutOnWellFormed(ms, p);
    CutOnWellFormed(ms, q);
    FirstClosedMonotone(ms, Clamp(p, |ms|), Clamp(q, |ms|));
    if a < b { NextBoundary(ms, a, b); }
  }

  /** The cut is the earliest safe index, as the documentation has it, exactly when no call block
      starts at the first boundary; otherwise the whole block goes to the head. */
  lemma CutIsEarliestIff(ms: seq<Message>, proposed: int)
    requires WellFormed(ms)
    ensures var b := FirstClosed(ms, Clamp(proposed, |ms|));
            && Boundary(ms, b) && (forall j :: Clamp(proposed, |ms|) <= j < b ==> !Boundary(ms, j))
            && (SafeCut(ms, proposed) == b <==> !(b < |ms| && IsCallRow(ms[b])))
  {
    hide Boundary, WellFormed, IsToolRow, SafeCut;
    CutOnWellFormed(ms, proposed);
    FirstClosedIsBoundary(ms, Clamp(proposed, |ms|));
    var b := FirstClosed(ms, Clamp(proposed, |ms|));
    if b < |ms| { CallUnit(ms[b]); }
  }

  /** The smallest instance: one call and its answer, cut proposed at the start. */
  lemma CutSkipsLeadingBlock(id: string)
    requires Strip(id) != ""
    ensures var ms := [Message("assistant", [id], "", ""), Message("tool", [], id, "")];
            WellFormed(ms) && Boundary(ms, 0) && SafeCut(ms, 0) == 2
  {
    var ms := [Message("assistant", [id], "", ""), Message("tool", [], id, "")];
    assert Stripped([id]) == [Strip(id)];
    assert Answers(ms[1..]) == [Strip(id)];
    assert ms[..2] == ms && IsBlock(ms);
    assert ms[2..] == [];
    assert Closed(ms[..0]);
    assert !IsToolRow(ms[0]) by { assert |"assistant"| != |"tool"|; }
    CutOnWellFormed(ms, 0);
  }

  lemma CutSkipsBlock(ms: seq<Message>)
    requires |ms| == 2 && IsCallRow(ms[0]) && IsToolRow(ms[1])
    ensures FirstClosed(ms, 0) == 0 && SafeCut(ms, 0) == 2
  {
    hide IsCallRow, IsToolRow, Opens, Closes;
    assert Closed(ms[..0]);
    assert EndOfToolRows(ms, 2) == 2 && EndOfToolRows(ms, 1) == 2;
  }

  lemma TwoCallsOneAnswer(a: string, b: string)
    requires Strip(a) != "" && Strip(b) != ""
    ensures var call, answer := Message("assistant", [a, b], "", ""), Message("tool", [], a, "");
            IsCallRow(call) && IsToolRow(answer) && Strip(b) in Opens(call) && Closes(answer) == {Strip(a)}
  {
    hide Strip;
    assert Stripped([a, b]) == [Strip(a), Strip(b)];
    assert Strip(b) in Stripped([a, b]);
  }

  /** An instance where the head does keep an open call: two calls, one of them answered. */
  lemma CutLeavesCallOpen(a: string, b: string)
    requires Strip(a) != "" && Strip(b) != "" && Strip(a) != Strip(b)
    ensures var ms := [Message("assistant", [a, b], "", ""), Message("tool", [], a, "")];
            SafeCut(ms, 0) == 2 && !Closed(ms[..2])
  {
    var ms := [Message("assistant", [a, b], "", ""), Message("tool", [], a, "")];
    TwoCallsOneAnswer(a, b);
    hide Opens, Closes, IsCallRow, IsToolRow, Closed, Stripped, Strip;
    CutSkipsBlock(ms);
    CutClosedIff(ms, 0);
    hide SafeCut, FirstClosed;
    assert Clamp(0, |ms|) == 0;
    assert !AnsweredWithin(ms, 0, 2, Strip(b));
  }
}
