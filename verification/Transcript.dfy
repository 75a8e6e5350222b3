/** Chat transcripts, their tool calls, and what it means for calls and results to stay together. */
module Transcript {
  import opened Sequences
  import opened Text

  /** A transcript row.  `callIds` lists the ids under `tool_calls`, an entry without a usable id
      being the empty string; rows that are no dictionaries carry nothing. */
  datatype Message =
    | Message(role: string, callIds: seq<string>, toolCallId: string, content: string)
    | NotADict

  predicate IsCallRow(m: Message) { m.Message? && m.role == "assistant" && m.callIds != [] }

  predicate IsToolRow(m: Message) { m.Message? && m.role == "tool" }

  function Stripped(ids: seq<string>): (r: seq<string>)
    ensures |r| == |ids| && forall i :: 0 <= i < |ids| ==> r[i] == Strip(ids[i])
  {
    seq(|ids|, i requires 0 <= i < |ids| => Strip(ids[i]))
  }

  /** The ids a row opens, and the ids it answers. */
  function Opens(m: Message): set<string> {
    if IsCallRow(m) then (set id | id in Stripped(m.callIds) && id != "") else {}
  }

  function Closes(m: Message): set<string> {
    if IsToolRow(m) && Strip(m.toolCallId) != "" then {Strip(m.toolCallId)} else {}
  }

  /** Calls still unanswered after `ms`, `pending` being unanswered before it. */
  function After(pending: set<string>, ms: seq<Message>): set<string> {
    if ms == [] then pending
    else After(pending, ms[..|ms|-1]) + Opens(ms[|ms|-1]) - Closes(ms[|ms|-1])
  }

  predicate Closed(ms: seq<Message>) { After({}, ms) == {} }

  lemma {:induction false} AfterConcat(pending: set<string>, a: seq<Message>, b: seq<Message>)
    ensures After(pending, a + b) == After(After(pending, a), b)
  {
    hide Opens, Closes;
    if b == [] {
      assert a + b == a;
    } else {
      AfterConcat(pending, a, b[..|b|-1]);
      assert (a + b)[..|a + b|-1] == a + b[..|b|-1];
    }
  }

  lemma AfterOne(pending: set<string>, m: Message)
    ensures After(pending, [m]) == pending + Opens(m) - Closes(m)
  {
    assert [m][..0] == [];
  }

  /** Row `i` opens `id` and no row from `i` on answers it. */
  ghost predicate OpenSince(ms: seq<Message>, id: string, i: nat) {
    i < |ms| && id in Opens(ms[i]) && forall j :: i <= j < |ms| ==> id !in Closes(ms[j])
  }

  lemma OpenSinceStep(ms: seq<Message>, id: string, i: nat)
    requires i < |ms|
    ensures var n := |ms| - 1;
            OpenSince(ms, id, i) <==>
              id !in Closes(ms[n]) && if i == n then id in Opens(ms[n]) else OpenSince(ms[..n], id, i)
  {
    hide Opens, Closes;
  }

  /** A call is pending exactly when some row opens it and no later row answers it. */
  lemma {:induction false} PendingMeaning(ms: seq<Message>, id: string)
    ensures id in After({}, ms) <==> exists i :: OpenSince(ms, id, i)
  {
    hide Opens, Closes;
    if ms != [] {
      var n := |ms| - 1;
      PendingMeaning(ms[..n], id);
      forall i: nat | i < |ms| { OpenSinceStep(ms, id, i); }
      if i: nat :| OpenSince(ms[..n], id, i) && id !in Closes(ms[n]) { assert OpenSince(ms, id, i); }
      if id in Opens(ms[n]) && id !in Closes(ms[n]) { assert OpenSince(ms, id, n); }
    }
  }

  /** The assistant row carries a tool call with this id. */
  ghost predicate Calls(m: Message, id: string) {
    m.Message? && m.role == "assistant" && id != "" && exists k :: 0 <= k < |m.callIds| && Strip(m.callIds[k]) == id
  }

  /** The tool row answers the call with this id. */
  ghost predicate AnswersTo(m: Message, id: string) {
    m.Message? && m.role == "tool" && id != "" && Strip(m.toolCallId) == id
  }

  /** Row `i` makes the call and no later row answers it. */
  ghost predicate Unanswered(ms: seq<Message>, id: string, i: nat) {
    i < |ms| && Calls(ms[i], id) && forall j :: i < j < |ms| ==> !AnswersTo(ms[j], id)
  }

  lemma RowsMean(m: Message, id: string)
    ensures id in Opens(m) <==> Calls(m, id)
    ensures id in Closes(m) <==> AnswersTo(m, id)
    ensures !(Calls(m, id) && AnswersTo(m, id))
  {
    hide Strip;
    assert "assistant" != "tool" by { assert |"assistant"| != |"tool"|; }
  }

  /** A call is pending exactly when some assistant row makes it and no later tool row answers it. */
  lemma PendingMeans(ms: seq<Message>, id: string)
    ensures id in After({}, ms) <==> exists i :: Unanswered(ms, id, i)
  {
    PendingMeaning(ms, id);
    forall m { RowsMean(m, id); }
    hide Calls, AnswersTo, Opens, Closes, After;
    if i: nat :| OpenSince(ms, id, i) { assert Unanswered(ms, id, i); }
    if i: nat :| Unanswered(ms, id, i) { assert OpenSince(ms, id, i); }
  }

  /** A transcript is closed exactly when no call of it is unanswered. */
  lemma ClosedMeans(ms: seq<Message>)
    ensures Closed(ms) <==> forall id, i :: !Unanswered(ms, id, i)
  {
    hide Unanswered, After;
    if After({}, ms) != {} {
      var id :| id in After({}, ms);
      PendingMeans(ms, id);
    } else {
      forall id, i ensures !Unanswered(ms, id, i) { PendingMeans(ms, id); }
    }
  }

  // ---------------------------------------------------------------- well-formed transcripts

  function Answers(ms: seq<Message>): seq<string> {
    seq(|ms|, i requires 0 <= i < |ms| => if ms[i].Message? then Strip(ms[i].toolCallId) else "")
  }

  /** A call row followed at once by tool rows that answer exactly its unique ids, in some order. */
  ghost predicate IsBlock(block: seq<Message>) {
    && block != [] && IsCallRow(block[0]) && |block| == |block[0].callIds| + 1
    && (forall j :: 1 <= j < |block| ==> IsToolRow(block[j]))
    && (forall id :: id in Stripped(block[0].callIds) ==> id != "")
    && Distinct(Stripped(block[0].callIds)) && Distinct(Answers(block[1..]))
    && (forall id :: id in Answers(block[1..]) <==> id in Stripped(block[0].callIds))
  }

  /** How many rows the unit at the front of a transcript takes. */
  function UnitSize(m: Message): nat {
    if IsCallRow(m) then |m.callIds| + 1 else 1
  }

  ghost predicate WellFormed(ms: seq<Message>)
    decreases |ms|
  {
    if ms == [] then true
    else
      && !IsToolRow(ms[0]) && UnitSize(ms[0]) <= |ms|
      && (IsCallRow(ms[0]) ==> IsBlock(ms[..UnitSize(ms[0])]))
      && WellFormed(ms[UnitSize(ms[0])..])
  }

  /** Positions between units. */
  ghost predicate Boundary(ms: seq<Message>, k: nat)
    requires k <= |ms|
    decreases |ms|
  {
    if k == 0 then true
    else UnitSize(ms[0]) <= k && Boundary(ms[UnitSize(ms[0])..], k - UnitSize(ms[0]))
  }

  lemma AfterStep(pending: set<string>, ms: seq<Message>, k: nat)
    requires 1 <= k <= |ms|
    ensures After(pending, ms[..k]) == After(pending, ms[..k-1]) + Opens(ms[k-1]) - Closes(ms[k-1])
  {
    assert ms[..k][..k-1] == ms[..k-1];
  }

  lemma BlockOpens(block: seq<Message>)
    requires IsBlock(block)
    ensures Opens(block[0]) == Elements(Answers(block[1..])) && Closes(block[0]) == {}
    ensures |Answers(block[1..])| == |block| - 1 && Distinct(Answers(block[1..]))
  {
  }

  lemma AnswerIsAnId(block: seq<Message>, id: string)
    requires IsBlock(block) && id in Answers(block[1..])
    ensures id != ""
  {
    hide Distinct, IsToolRow, IsCallRow;
  }

  lemma AnswerAt(ms: seq<Message>, i: nat)
    requires i < |ms| && IsToolRow(ms[i])
    ensures |Answers(ms)| == |ms| && Answers(ms)[i] == Strip(ms[i].toolCallId) && Answers(ms)[i] in Answers(ms)
  {
  }

  lemma BlockShape(block: seq<Message>, j: nat)
    requires IsBlock(block) && 1 <= j < |block|
    ensures IsToolRow(block[j])
  {
    hide Answers, Distinct, IsToolRow, IsCallRow;
  }

  lemma BlockRow(block: seq<Message>, j: nat)
    requires IsBlock(block) && 1 <= j < |block|
    ensures IsToolRow(block[j]) && |Answers(block[1..])| == |block| - 1
    ensures Answers(block[1..])[j-1] == Strip(block[j].toolCallId) && Answers(block[1..])[j-1] in Answers(block[1..])
  {
    hide IsBlock, Answers, IsToolRow;
    BlockShape(block, j);
    assert block[1..][j-1] == block[j];
    AnswerAt(block[1..], j - 1);
  }

  lemma BlockAnswers(block: seq<Message>, j: nat)
    requires IsBlock(block) && 1 <= j < |block|
    ensures |Answers(block[1..])| == |block| - 1
    ensures Opens(block[j]) == {} && Closes(block[j]) == {Answers(block[1..])[j-1]}
  {
    hide IsBlock, Answers;
    BlockRow(block, j);
    AnswerIsAnId(block, Answers(block[1..])[j-1]);
  }

  lemma DropFirst(s: seq<string>, k: nat)
    requires Distinct(s) && k < |s|
    ensures Elements(s[k..]) - {s[k]} == Elements(s[k+1..])
  {
    assert s[k..] == [s[k]] + s[k+1..];
    assert s[k] !in s[k+1..];
  }

  /** Inside a block the calls not yet answered are exactly those whose tool rows are still to come. */
  lemma {:induction false} InsideBlock(block: seq<Message>, k: nat)
    requires IsBlock(block) && 1 <= k <= |block|
    ensures |Answers(block[1..])| == |block| - 1
    ensures After({}, block[..k]) == Elements(Answers(block[1..])[k-1..])
  {
    hide IsBlock, Opens, Closes, Answers, Elements, Distinct;
    BlockOpens(block);
    AfterStep({}, block, k);
    if k == 1 {
      assert block[..0] == [];
      assert Answers(block[1..])[0..] == Answers(block[1..]);
    } else {
      InsideBlock(block, k - 1);
      BlockAnswers(block, k - 1);
      DropFirst(Answers(block[1..]), k - 2);
    }
  }

  lemma BlockClosesAtEnd(block: seq<Message>, k: nat)
    requires IsBlock(block) && 1 <= k <= |block|
    ensures Closed(block[..k]) <==> k == |block|
  {
    hide IsBlock, Answers, After;
    InsideBlock(block, k);
    var rest := Answers(block[1..])[k-1..];
    if k == |block| {
      assert rest == [];
    } else {
      assert rest[0] in Elements(rest);
    }
  }

  lemma BlockSize(block: seq<Message>)
    requires IsBlock(block)
    ensures block != [] && |block| == UnitSize(block[0])
  {
  }

  lemma UnitCloses(ms: seq<Message>, k: nat)
    requires WellFormed(ms) && ms != [] && 1 <= k <= UnitSize(ms[0])
    ensures k <= |ms| && (Closed(ms[..k]) <==> k == UnitSize(ms[0]))
  {
    hide IsBlock, After;
    var unit := ms[..UnitSize(ms[0])];
    assert ms[..k] == unit[..k];
    if IsCallRow(ms[0]) {
      BlockSize(unit);
      BlockClosesAtEnd(unit, k);
    } else {
      assert ms[..1] == [ms[0]];
      AfterOne({}, ms[0]);
    }
  }

  /** Closing before a suffix reduces the question to the suffix. */
  lemma ClosedThrough(ms: seq<Message>, u: nat, k: nat)
    requires u <= k <= |ms| && Closed(ms[..u])
    ensures Closed(ms[..k]) <==> Closed(ms[u..][..k-u])
  {
    assert ms[..k] == ms[..u] + ms[u..][..k-u];
    AfterConcat({}, ms[..u], ms[u..][..k-u]);
  }

  lemma UnitPositive(m: Message)
    ensures UnitSize(m) >= 1
  {
  }

  lemma NothingPending(ms: seq<Message>)
    ensures Closed(ms[..0])
  {
  }

  /** In a well-formed transcript a prefix has no unanswered call exactly at the boundaries. */
  lemma {:induction false} ClosedIffBoundary(ms: seq<Message>, k: nat)
    requires WellFormed(ms) && k <= |ms|
    ensures Closed(ms[..k]) <==> Boundary(ms, k)
    decreases |ms|
  {
    hide IsBlock, Closed, UnitSize;
    if k == 0 {
      NothingPending(ms);
    } else {
      var u := UnitSize(ms[0]);
      UnitPositive(ms[0]);
      if k < u {
        UnitCloses(ms, k);
      } else {
        UnitCloses(ms, u);
        ClosedThrough(ms, u, k);
        ClosedIffBoundary(ms[u..], k - u);
      }
    }
  }

  lemma {:induction false} WellFormedConcat(a: seq<Message>, b: seq<Message>)
    requires WellFormed(a) && WellFormed(b)
    ensures WellFormed(a + b)
    decreases |a|
  {
    hide IsBlock, IsToolRow;
    if a == [] {
      assert a + b == b;
    } else {
      var u := UnitSize(a[0]);
      WellFormedConcat(a[u..], b);
      assert (a + b)[..u] == a[..u] && (a + b)[u..] == a[u..] + b;
    }
  }

  /** A boundary cuts a well-formed transcript into two well-formed ones. */
  lemma {:induction false} BoundarySplits(ms: seq<Message>, k: nat)
    requires WellFormed(ms) && k <= |ms| && Boundary(ms, k)
    ensures WellFormed(ms[..k]) && WellFormed(ms[k..])
    decreases |ms|
  {
    hide IsBlock, IsToolRow, IsCallRow;
    if k == 0 {
      assert ms[0..] == ms;
    } else {
      var u := UnitSize(ms[0]);
      BoundarySplits(ms[u..], k - u);
      assert ms[..k][..u] == ms[..u] && ms[..k][u..] == ms[u..][..k-u];
      assert ms[k..] == ms[u..][k-u..];
    }
  }

  lemma UnitRows(ms: seq<Message>, k: nat)
    requires WellFormed(ms) && ms != [] && 0 < k < UnitSize(ms[0])
    ensures k < |ms| && IsToolRow(ms[k])
  {
    assert ms[..UnitSize(ms[0])][k] == ms[k];
  }

  /** Only tool rows sit inside a unit. */
  lemma {:induction false} NonToolRowIsBoundary(ms: seq<Message>, k: nat)
    requires WellFormed(ms) && k < |ms| && !IsToolRow(ms[k])
    ensures Boundary(ms, k)
    decreases |ms|
  {
    if k > 0 {
      var u := UnitSize(ms[0]);
      if k < u {
        UnitRows(ms, k);
      } else {
        NonToolRowIsBoundary(ms[u..], k - u);
      }
    }
  }

  /** Where a unit starts, its end is a boundary too, and nothing but tool rows lies between. */
  lemma {:induction false} UnitAt(ms: seq<Message>, k: nat)
    requires WellFormed(ms) && k < |ms| && Boundary(ms, k)
    ensures !IsToolRow(ms[k]) && k + UnitSize(ms[k]) <= |ms| && Boundary(ms, k + UnitSize(ms[k]))
    ensures forall j :: k < j < k + UnitSize(ms[k]) ==> IsToolRow(ms[j]) && !Boundary(ms, j)
    decreases |ms|
  {
    hide IsBlock, UnitSize, IsToolRow, IsCallRow;
    var u := UnitSize(ms[0]);
    UnitPositive(ms[0]);
    if k == 0 {
      assert Boundary(ms[u..], 0);
      forall j | 0 < j < u ensures IsToolRow(ms[j]) && !Boundary(ms, j) { UnitRows(ms, j); }
    } else {
      UnitAt(ms[u..], k - u);
      assert ms[u..][k-u] == ms[k];
      forall j | k < j < k + UnitSize(ms[k]) ensures IsToolRow(ms[j]) && !Boundary(ms, j) {
        assert ms[u..][j-u] == ms[j];
      }
    }
  }

  lemma {:induction false} EndIsBoundary(ms: seq<Message>)
    requires WellFormed(ms)
    ensures Boundary(ms, |ms|)
    decreases |ms|
  {
    if ms != [] { EndIsBoundary(ms[UnitSize(ms[0])..]); }
  }
}
