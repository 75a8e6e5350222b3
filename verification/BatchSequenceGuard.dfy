/** Read-before-edit reordering of one tool batch, and the guard that skips reads gone stale in it. */
module BatchSequenceGuard {
  import opened Sequences
  import opened Text

  /** A tool call as the batch sees it: its name and its string arguments. */
  datatype ToolCall = ToolCall(name: string, args: map<string, string>)

  const DESTRUCTIVE_BATCH_TOOLS: set<string> := {"write_file", "patch", "edit_file", "apply_patch"}

  const STALE_READ_BATCH_TOOLS: set<string> :=
    {"read_file", "grep", "search_files", "search_code", "glob", "list_directory", "list_dir"}

  predicate IsDestructive(tool: string) {
    var name := Lower(Strip(tool));
    name in DESTRUCTIVE_BATCH_TOOLS || StartsWith(name, "write_") || StartsWith(name, "edit_")
        || StartsWith(name, "patch")
  }

  predicate IsStaleRead(tool: string) {
    var name := Lower(Strip(tool));
    || name in STALE_READ_BATCH_TOOLS || StartsWith(name, "read_") || StartsWith(name, "search_")
    || StartsWith(name, "grep") || StartsWith(name, "list_")
  }

  predicate BatchHasDestructiveAndReads(calls: seq<ToolCall>) {
    && (exists i :: 0 <= i < |calls| && IsDestructive(calls[i].name))
    && (exists i :: 0 <= i < |calls| && IsStaleRead(calls[i].name))
  }

  // ---------------------------------------------------------------- scope paths

  const PATH_KEYS := ["path", "file", "directory", "root", "target"]

  function ArgOf(args: map<string, string>, key: string): string {
    if key in args then Strip(args[key]) else ""
  }

  function PathsUnder(keys: seq<string>, args: map<string, string>): (ps: seq<string>)
    ensures forall p :: p in ps ==> p != ""
  {
    if keys == [] then []
    else (if ArgOf(args, keys[0]) != "" then [ArgOf(args, keys[0])] else []) + PathsUnder(keys[1..], args)
  }

  /** A search without a path whose pattern looks like one. */
  predicate SearchesByPattern(call: ToolCall)
    ensures SearchesByPattern(call) ==> ArgOf(call.args, "pattern") != ""
  {
    var name, pattern := Lower(Strip(call.name)), ArgOf(call.args, "pattern");
    (name == "grep" || name == "search_files") && (StartsWith(pattern, "/") || StartsWith(pattern, "."))
  }

  function ScopePaths(call: ToolCall): (ps: seq<string>)
    ensures forall p :: p in ps ==> p != ""
  {
    var paths := PathsUnder(PATH_KEYS, call.args);
    if paths == [] && SearchesByPattern(call) then [ArgOf(call.args, "pattern")] else paths
  }

  /** Same path, or one inside the other, after normalisation. */
  predicate PathsOverlap(norm: string -> string, a: string, b: string) {
    && a != "" && b != ""
    && (norm(a) == norm(b) || StartsWith(norm(a), norm(b) + "/") || StartsWith(norm(b), norm(a) + "/"))
  }

  predicate Overlaps(norm: string -> string, a: ToolCall, b: ToolCall) {
    exists i, j :: 0 <= i < |ScopePaths(a)| && 0 <= j < |ScopePaths(b)|
        && PathsOverlap(norm, ScopePaths(a)[i], ScopePaths(b)[j])
  }

  lemma OverlapIsSymmetric(norm: string -> string, a: ToolCall, b: ToolCall)
    ensures Overlaps(norm, a, b) <==> Overlaps(norm, b, a)
  {
    hide ScopePaths;
    forall x: string, y: string ensures PathsOverlap(norm, x, y) == PathsOverlap(norm, y, x) {}
    hide PathsOverlap;
    if Overlaps(norm, a, b) {
      var i, j :| 0 <= i < |ScopePaths(a)| && 0 <= j < |ScopePaths(b)|
          && PathsOverlap(norm, ScopePaths(a)[i], ScopePaths(b)[j]);
      assert PathsOverlap(norm, ScopePaths(b)[j], ScopePaths(a)[i]);
    }
    if Overlaps(norm, b, a) {
      var i, j :| 0 <= i < |ScopePaths(b)| && 0 <= j < |ScopePaths(a)|
          && PathsOverlap(norm, ScopePaths(b)[i], ScopePaths(a)[j]);
      assert PathsOverlap(norm, ScopePaths(a)[j], ScopePaths(b)[i]);
    }
  }

  predicate IsPatch(c: ToolCall) { c.name == "patch" }

  predicate IsRead(c: ToolCall) { c.name == "read_file" }

  // ---------------------------------------------------------------- what names and paths mean

  /** Beyond the three prefixes only `apply_patch` writes; beyond the four only `glob` reads. */
  lemma NamesMean(tool: string)
    ensures var n := Lower(Strip(tool));
            && (IsDestructive(tool) <==> "write_" <= n || "edit_" <= n || "patch" <= n || n == "apply_patch")
            && (IsStaleRead(tool) <==>
                  "read_" <= n || "search_" <= n || "grep" <= n || "list_" <= n || n == "glob")
  {
    hide Lower, Strip;
    var n := Lower(Strip(tool));
    assert n == "write_file" ==> n[..6] == "write_";
    assert n == "edit_file" ==> n[..5] == "edit_";
    assert n == "read_file" ==> n[..5] == "read_";
    assert n == "search_files" || n == "search_code" ==> n[..7] == "search_";
    assert n == "list_directory" || n == "list_dir" ==> n[..5] == "list_";
  }

  /** The argument `key` is set, and not blank: `p` without the white space around it. */
  ghost predicate SetTo(call: ToolCall, key: string, p: string) {
    key in call.args && p == Strip(call.args[key]) && p != ""
  }

  /** One of the five path arguments is set to `p`. */
  ghost predicate NamedPath(call: ToolCall, p: string) {
    || SetTo(call, "path", p) || SetTo(call, "file", p) || SetTo(call, "directory", p)
    || SetTo(call, "root", p) || SetTo(call, "target", p)
  }

  /** A path the call works on: a path argument, or the pattern of a search that has none and whose
      pattern looks like a path. */
  ghost predicate WorksOn(call: ToolCall, p: string) {
    || NamedPath(call, p)
    || (&& (forall q :: !NamedPath(call, q)) && SetTo(call, "pattern", p) && p[0] in {'/', '.'}
        && Lower(Strip(call.name)) in {"grep", "search_files"})
  }

  lemma {:induction false} PathsUnderMeans(keys: seq<string>, call: ToolCall, p: string)
    ensures p in PathsUnder(keys, call.args) <==> exists i :: 0 <= i < |keys| && SetTo(call, keys[i], p)
  {
    hide Strip;
    if keys != [] {
      var rest := keys[1..];
      PathsUnderMeans(rest, call, p);
      if i :| 0 <= i < |rest| && SetTo(call, rest[i], p) { assert SetTo(call, keys[i+1], p); }
      if i :| 0 <= i < |keys| && SetTo(call, keys[i], p) { assert i > 0 ==> SetTo(call, rest[i-1], p); }
    }
  }

  lemma PathKeysMean(call: ToolCall, p: string)
    ensures p in PathsUnder(PATH_KEYS, call.args) <==> NamedPath(call, p)
  {
    PathsUnderMeans(PATH_KEYS, call, p);
    hide SetTo, PathsUnder;
    var keys := PATH_KEYS;
    assert (SetTo(call, keys[0], p) || SetTo(call, keys[1], p) || SetTo(call, keys[2], p)
            || SetTo(call, keys[3], p) || SetTo(call, keys[4], p)) <==> NamedPath(call, p);
  }

  lemma SearchPatternMeans(call: ToolCall, p: string)
    ensures SearchesByPattern(call) && p == ArgOf(call.args, "pattern") <==>
              SetTo(call, "pattern", p) && p[0] in {'/', '.'} && Lower(Strip(call.name)) in {"grep", "search_files"}
  {
    hide Strip, Lower;
    var pattern := ArgOf(call.args, "pattern");
    assert StartsWith(pattern, "/") <==> pattern != "" && pattern[0] == '/' by {
      if pattern != "" { assert pattern[..1] == [pattern[0]]; }
    }
    assert StartsWith(pattern, ".") <==> pattern != "" && pattern[0] == '.' by {
      if pattern != "" { assert pattern[..1] == [pattern[0]]; }
    }
  }

  /** The scope paths of a call are exactly the paths it works on. */
  lemma ScopePathsMean(call: ToolCall, p: string)
    ensures p in ScopePaths(call) <==> WorksOn(call, p)
  {
    forall q { PathKeysMean(call, q); }
    SearchPatternMeans(call, p);
    var paths := PathsUnder(PATH_KEYS, call.args);
    assert paths == [] <==> forall q :: !NamedPath(call, q) by {
      if paths != [] { assert paths[0] in paths; }
    }
    hide PathsUnder, NamedPath, SearchesByPattern, ArgOf, SetTo, Lower, Strip;
  }

  /** `x` lies below the directory `y`. */
  ghost predicate Inside(x: string, y: string) {
    exists rest :: x == y + "/" + rest
  }

  /** The two calls work on one path, or on paths of which one lies inside the other. */
  ghost predicate SharePath(norm: string -> string, a: ToolCall, b: ToolCall) {
    exists p, q :: WorksOn(a, p) && WorksOn(b, q)
                   && (norm(p) == norm(q) || Inside(norm(p), norm(q)) || Inside(norm(q), norm(p)))
  }

  lemma InsideIsPrefix(x: string, y: string)
    ensures StartsWith(x, y + "/") <==> Inside(x, y)
  {
    if StartsWith(x, y + "/") { assert x == y + "/" + x[|y|+1..]; }
  }

  lemma WorksOnSomething(call: ToolCall, p: string)
    ensures WorksOn(call, p) ==> p != ""
  {
    hide Strip, Lower;
  }

  lemma OverlapMeans(norm: string -> string, a: ToolCall, b: ToolCall)
    ensures Overlaps(norm, a, b) <==> SharePath(norm, a, b)
  {
    forall p { ScopePathsMean(a, p); }
    forall q { ScopePathsMean(b, q); }
    forall p { WorksOnSomething(a, p); }
    forall q { WorksOnSomething(b, q); }
    forall x, y { InsideIsPrefix(x, y); }
    hide ScopePaths, WorksOn, Inside, StartsWith;
    if i, j :| 0 <= i < |ScopePaths(a)| && 0 <= j < |ScopePaths(b)|
               && PathsOverlap(norm, ScopePaths(a)[i], ScopePaths(b)[j])
    {
      var p, q := ScopePaths(a)[i], ScopePaths(b)[j];
      assert p in ScopePaths(a) && q in ScopePaths(b);
      assert WorksOn(a, p) && WorksOn(b, q);
    }
    if SharePath(norm, a, b) {
      var p, q :| WorksOn(a, p) && WorksOn(b, q)
                  && (norm(p) == norm(q) || Inside(norm(p), norm(q)) || Inside(norm(q), norm(p)));
      assert p in ScopePaths(a) && q in ScopePaths(b);
      var i :| 0 <= i < |ScopePaths(a)| && ScopePaths(a)[i] == p;
      var j :| 0 <= j < |ScopePaths(b)| && ScopePaths(b)[j] == q;
      assert PathsOverlap(norm, ScopePaths(a)[i], ScopePaths(b)[j]);
    }
  }

  // ---------------------------------------------------------------- the reordering, declaratively

  predicate ReadFor(norm: string -> string, s: seq<ToolCall>, i: nat, k: nat)
    requires i < |s| && k < |s|
  {
    IsRead(s[k]) && Overlaps(norm, s[i], s[k])
  }

  /** The patch at `i` has no read of its path before it but one at `j`, the first one after it. */
  predicate Misplaced(norm: string -> string, s: seq<ToolCall>, i: nat, j: nat) {
    && i < j < |s| && IsPatch(s[i]) && ReadFor(norm, s, i, j)
    && forall k :: 0 <= k < j && k != i ==> !ReadFor(norm, s, i, k)
  }

  /** The move the loop makes next: for the first misplaced patch, its first read. */
  ghost predicate NextMove(norm: string -> string, s: seq<ToolCall>, i: nat, j: nat) {
    Misplaced(norm, s, i, j) && forall i': nat, j': nat :: i' < i ==> !Misplaced(norm, s, i', j')
  }

  function MoveRead(s: seq<ToolCall>, i: nat, j: nat): (t: seq<ToolCall>)
    requires i < j < |s|
    ensures |t| == |s|
  {
    s[..i] + [s[j]] + s[i..j] + s[j+1..]
  }

  // ---------------------------------------------------------------- the measure

  function Reads(s: seq<ToolCall>): set<ToolCall> {
    set c | c in s && IsRead(c)
  }

  predicate Covered(norm: string -> string, seen: set<ToolCall>, c: ToolCall) {
    exists r :: r in seen && Overlaps(norm, c, r)
  }

  /** Patches of `s` not covered by an earlier read, `seen` standing before `s`. */
  function Uncovered(norm: string -> string, seen: set<ToolCall>, s: seq<ToolCall>): nat
    decreases s
  {
    if s == [] then 0
    else (if IsPatch(s[0]) && !Covered(norm, seen, s[0]) then 1 else 0)
         + Uncovered(norm, if IsRead(s[0]) then seen + {s[0]} else seen, s[1..])
  }

  lemma {:induction false} UncoveredSplit(norm: string -> string, seen: set<ToolCall>, a: seq<ToolCall>,
                                          b: seq<ToolCall>)
    ensures Uncovered(norm, seen, a + b) == Uncovered(norm, seen, a) + Uncovered(norm, seen + Reads(a), b)
    decreases a
  {
    hide Covered;
    if a == [] {
      assert a + b == b && seen + Reads(a) == seen;
    } else {
      var next := if IsRead(a[0]) then seen + {a[0]} else seen;
      assert (a + b)[1..] == a[1..] + b && (a + b)[0] == a[0];
      UncoveredSplit(norm, next, a[1..], b);
      assert a == [a[0]] + a[1..];
      assert next + Reads(a[1..]) == seen + Reads(a);
    }
  }

  lemma {:induction false} UncoveredShrinks(norm: string -> string, fewer: set<ToolCall>, more: set<ToolCall>,
                                            s: seq<ToolCall>)
    requires fewer <= more
    ensures Uncovered(norm, more, s) <= Uncovered(norm, fewer, s)
    decreases s
  {
    hide Overlaps;
    if s != [] {
      UncoveredShrinks(norm, if IsRead(s[0]) then fewer + {s[0]} else fewer,
                       if IsRead(s[0]) then more + {s[0]} else more, s[1..]);
    }
  }

  lemma MovedPieces(s: seq<ToolCall>, i: nat, j: nat)
    requires i < j < |s|
    ensures s == s[..i] + ([s[i]] + (s[i+1..j] + ([s[j]] + s[j+1..])))
    ensures MoveRead(s, i, j) == s[..i] + ([s[j]] + ([s[i]] + (s[i+1..j] + s[j+1..])))
  {
  }

  lemma PatchIsNoRead(c: ToolCall)
    ensures !(IsPatch(c) && IsRead(c))
  {
  }

  lemma UncoveredStep(norm: string -> string, seen: set<ToolCall>, c: ToolCall, s: seq<ToolCall>)
    ensures Uncovered(norm, seen, [c] + s) ==
            (if IsPatch(c) && !Covered(norm, seen, c) then 1 else 0)
                + Uncovered(norm, if IsRead(c) then seen + {c} else seen, s)
  {
    assert ([c] + s)[1..] == s;
  }

  lemma UncoveredBefore(norm: string -> string, a: seq<ToolCall>, p: ToolCall, m: seq<ToolCall>, r: ToolCall,
                        b: seq<ToolCall>)
    requires IsPatch(p) && IsRead(r) && !Covered(norm, Reads(a), p)
    ensures Uncovered(norm, {}, a + ([p] + (m + ([r] + b)))) ==
            Uncovered(norm, {}, a) + 1 + Uncovered(norm, Reads(a), m) + Uncovered(norm, Reads(a) + Reads(m) + {r}, b)
  {
    PatchIsNoRead(p);
    PatchIsNoRead(r);
    hide *;
    UncoveredSplit(norm, {}, a, [p] + (m + ([r] + b)));
    assert {} + Reads(a) == Reads(a);
    UncoveredStep(norm, Reads(a), p, m + ([r] + b));
    UncoveredSplit(norm, Reads(a), m, [r] + b);
    UncoveredStep(norm, Reads(a) + Reads(m), r, b);
  }

  lemma UncoveredAfter(norm: string -> string, a: seq<ToolCall>, p: ToolCall, m: seq<ToolCall>, r: ToolCall,
                       b: seq<ToolCall>)
    requires IsPatch(p) && IsRead(r) && Covered(norm, Reads(a) + {r}, p)
    ensures Uncovered(norm, {}, a + ([r] + ([p] + (m + b)))) ==
            Uncovered(norm, {}, a) + Uncovered(norm, Reads(a) + {r}, m) + Uncovered(norm, Reads(a) + Reads(m) + {r}, b)
  {
    PatchIsNoRead(p);
    PatchIsNoRead(r);
    hide *;
    UncoveredSplit(norm, {}, a, [r] + ([p] + (m + b)));
    assert {} + Reads(a) == Reads(a);
    UncoveredStep(norm, Reads(a), r, [p] + (m + b));
    UncoveredStep(norm, Reads(a) + {r}, p, m + b);
    UncoveredSplit(norm, Reads(a) + {r}, m, b);
    assert Reads(a) + {r} + Reads(m) == Reads(a) + Reads(m) + {r};
  }

  lemma AtPatch(norm: string -> string, s: seq<ToolCall>, i: nat, j: nat)
    requires Misplaced(norm, s, i, j)
    ensures i < j < |s| && IsPatch(s[i]) && IsRead(s[j])
    ensures !Covered(norm, Reads(s[..i]), s[i]) && Covered(norm, Reads(s[..i]) + {s[j]}, s[i])
  {
    hide Overlaps;
    forall r | r in Reads(s[..i]) ensures !Overlaps(norm, s[i], r) {
      var k :| 0 <= k < i && s[..i][k] == r;
      assert !ReadFor(norm, s, i, k);
    }
    assert s[j] in Reads(s[..i]) + {s[j]};
  }

  /** Moving a read in front of the patch it covers leaves strictly fewer uncovered patches. */
  lemma MoveHelps(norm: string -> string, s: seq<ToolCall>, i: nat, j: nat)
    requires Misplaced(norm, s, i, j)
    ensures Uncovered(norm, {}, MoveRead(s, i, j)) < Uncovered(norm, {}, s)
  {
    AtPatch(norm, s, i, j);
    MovedPieces(s, i, j);
    var a, p, m, r, b := s[..i], s[i], s[i+1..j], s[j], s[j+1..];
    hide *;
    UncoveredBefore(norm, a, p, m, r, b);
    UncoveredAfter(norm, a, p, m, r, b);
    UncoveredShrinks(norm, Reads(a), Reads(a) + {r}, m);
  }

  // ---------------------------------------------------------------- the fixpoint

  lemma NextMoveIsUnique(norm: string -> string, s: seq<ToolCall>, i: nat, j: nat, i': nat, j': nat)
    requires NextMove(norm, s, i, j) && NextMove(norm, s, i', j')
    ensures i == i' && j == j'
  {
    hide ReadFor;
    assert Misplaced(norm, s, i, j) && Misplaced(norm, s, i', j');
  }

  /** The batch after every move has been made, first misplaced patch first. */
  ghost function Reordered(norm: string -> string, s: seq<ToolCall>): (t: seq<ToolCall>)
    decreases Uncovered(norm, {}, s)
  {
    if exists i: nat, j: nat :: NextMove(norm, s, i, j) then
      var i: nat, j: nat :| NextMove(norm, s, i, j);
      MoveHelps(norm, s, i, j);
      Reordered(norm, MoveRead(s, i, j))
    else s
  }

  lemma MisplacedBounds(norm: string -> string, s: seq<ToolCall>, i: nat, j: nat)
    requires Misplaced(norm, s, i, j)
    ensures i < j < |s|
  {
  }

  lemma ReorderedStep(norm: string -> string, s: seq<ToolCall>, i: nat, j: nat)
    requires NextMove(norm, s, i, j)
    ensures i < j < |s| && Reordered(norm, s) == Reordered(norm, MoveRead(s, i, j))
  {
    hide Misplaced, MoveRead, Uncovered;
    assert i < j < |s| by { MisplacedBounds(norm, s, i, j); }
    forall i': nat, j': nat | NextMove(norm, s, i', j') ensures i' == i && j' == j {
      NextMoveIsUnique(norm, s, i, j, i', j');
    }
  }

  lemma ReorderedDone(norm: string -> string, s: seq<ToolCall>)
    requires forall i: nat, j: nat :: !Misplaced(norm, s, i, j)
    ensures Reordered(norm, s) == s
  {
    hide Misplaced;
  }

  function NonReads(s: seq<ToolCall>): seq<ToolCall> {
    if s == [] then [] else if IsRead(s[0]) then NonReads(s[1..]) else [s[0]] + NonReads(s[1..])
  }

  /** Where the batch holds anything but a `read_file`. */
  ghost function OtherPlaces(s: seq<ToolCall>): set<nat> {
    set i | 0 <= i < |s| && s[i].name != "read_file"
  }

  lemma {:induction false} NonReadsConcat(a: seq<ToolCall>, b: seq<ToolCall>)
    ensures NonReads(a + b) == NonReads(a) + NonReads(b)
  {
    hide IsRead;
    if a == [] {
      assert a + b == b;
    } else {
      NonReadsConcat(a[1..], b);
      assert (a + b)[1..] == a[1..] + b && (a + b)[0] == a[0];
      if !IsRead(a[0]) {
        assert NonReads(a) == [a[0]] + NonReads(a[1..]);
        assert NonReads(a + b) == [a[0]] + (NonReads(a[1..]) + NonReads(b));
      }
    }
  }

  /** `NonReads` keeps exactly those calls, in order. */
  lemma {:induction false} NonReadsMean(s: seq<ToolCall>)
    ensures Selects(s, OtherPlaces(s), NonReads(s))
  {
    if s == [] {
      SelectsNothing<ToolCall>(OtherPlaces(s));
    } else {
      var front, c := s[..|s|-1], s[|s|-1];
      assert s == front + [c];
      NonReadsMean(front);
      NonReadsConcat(front, [c]);
      assert NonReads([c]) == if IsRead(c) then [] else [c];
      SelectsAgree(front, OtherPlaces(front), OtherPlaces(s), NonReads(front));
      SelectsStep(front, OtherPlaces(s), NonReads(front), c);
      hide NonReads, Selects;
    }
  }

  lemma ReadVanishes(r: ToolCall, s: seq<ToolCall>)
    requires IsRead(r)
    ensures NonReads([r] + s) == NonReads(s)
  {
    assert ([r] + s)[1..] == s;
  }

  lemma MoveParts(s: seq<ToolCall>, i: nat, j: nat)
    requires i < j < |s|
    ensures s == s[..i] + (s[i..j] + ([s[j]] + s[j+1..]))
    ensures MoveRead(s, i, j) == s[..i] + ([s[j]] + (s[i..j] + s[j+1..]))
  {
  }

  lemma SwapMultiset(a: seq<ToolCall>, m: seq<ToolCall>, r: ToolCall, b: seq<ToolCall>)
    ensures multiset(a + (m + ([r] + b))) == multiset(a + ([r] + (m + b)))
  {
  }

  lemma MoveKeeps(s: seq<ToolCall>, i: nat, j: nat)
    requires i < j < |s| && IsRead(s[j])
    ensures multiset(MoveRead(s, i, j)) == multiset(s)
    ensures NonReads(MoveRead(s, i, j)) == NonReads(s)
  {
    hide NonReads, IsRead, MoveRead;
    MoveParts(s, i, j);
    var a, m, r, b := s[..i], s[i..j], s[j], s[j+1..];
    NonReadsConcat(a, m + ([r] + b));
    NonReadsConcat(m, [r] + b);
    ReadVanishes(r, b);
    NonReadsConcat(a, [r] + (m + b));
    ReadVanishes(r, m + b);
    NonReadsConcat(m, b);
    SwapMultiset(a, m, r, b);
  }

  lemma MovedIsRead(norm: string -> string, s: seq<ToolCall>, i: nat, j: nat)
    requires Misplaced(norm, s, i, j)
    ensures i < j < |s| && IsRead(s[j])
  {
  }

  lemma {:induction false} FirstMisplaced(norm: string -> string, s: seq<ToolCall>, i: nat, j: nat)
    returns (i': nat, j': nat)
    requires Misplaced(norm, s, i, j)
    ensures NextMove(norm, s, i', j')
    decreases i
  {
    hide Misplaced;
    if x: nat, y: nat :| x < i && Misplaced(norm, s, x, y) {
      i', j' := FirstMisplaced(norm, s, x, y);
    } else {
      i', j' := i, j;
    }
  }

  /** The reordering is a permutation, keeps every call that is not a read in its relative order, and
      leaves no patch whose path is read only later. */
  lemma {:induction false} ReorderedIsSafe(norm: string -> string, s: seq<ToolCall>)
    ensures multiset(Reordered(norm, s)) == multiset(s)
    ensures NonReads(Reordered(norm, s)) == NonReads(s)
    ensures forall i: nat, j: nat :: !Misplaced(norm, Reordered(norm, s), i, j)
    decreases Uncovered(norm, {}, s)
  {
    hide Misplaced, MoveRead, Uncovered;
    if exists i: nat, j: nat :: NextMove(norm, s, i, j) {
      var i: nat, j: nat :| NextMove(norm, s, i, j);
      ReorderedStep(norm, s, i, j);
      MoveHelps(norm, s, i, j);
      MovedIsRead(norm, s, i, j);
      MoveKeeps(s, i, j);
      ReorderedIsSafe(norm, MoveRead(s, i, j));
    } else {
      forall i: nat, j: nat ensures !Misplaced(norm, s, i, j) {
        if Misplaced(norm, s, i, j) {
          var i', j' := FirstMisplaced(norm, s, i, j);
        }
      }
    }
  }

  // ---------------------------------------------------------------- the loop

  lemma PlainName(s: string)
    requires Trimmed(s) && forall c :: c in s ==> !('A' <= c <= 'Z')
    ensures Lower(Strip(s)) == s
  {
    StripOfTrimmed(s);
    assert forall i :: 0 <= i < |s| ==> s[i] in s;
    assert Lower(s) == s;
  }

  lemma PlainNames()
    ensures IsDestructive("patch") && IsStaleRead("read_file")
  {
    PlainName("patch");
    PlainName("read_file");
  }

  /** The early exit never breaks the promise: a batch it turns away has no misplaced patch. */
  lemma GateIsHarmless(norm: string -> string, calls: seq<ToolCall>)
    requires !BatchHasDestructiveAndReads(calls)
    ensures forall i: nat, j: nat :: !Misplaced(norm, calls, i, j)
  {
    hide IsDestructive, IsStaleRead, Overlaps;
    PlainNames();
    forall i: nat, j: nat ensures !Misplaced(norm, calls, i, j) {
      assert i < |calls| && IsPatch(calls[i]) ==> IsDestructive(calls[i].name);
      assert j < |calls| && IsRead(calls[j]) ==> IsStaleRead(calls[j].name);
    }
  }

  method HasPriorRead(norm: string -> string, s: seq<ToolCall>, i: nat) returns (found: bool)
    requires i < |s|
    ensures found <==> exists k :: 0 <= k < i && ReadFor(norm, s, i, k)
  {
    hide Overlaps;
    for k := 0 to i
      invariant forall m :: 0 <= m < k ==> !ReadFor(norm, s, i, m)
    {
      if s[k].name != "read_file" { continue; }
      if Overlaps(norm, s[i], s[k]) {
        assert ReadFor(norm, s, i, k);
        return true;
      }
    }
    return false;
  }

  method FirstReadAfter(norm: string -> string, s: seq<ToolCall>, i: nat) returns (j: nat)
    requires i < |s|
    ensures i < j <= |s| && (j < |s| ==> ReadFor(norm, s, i, j))
    ensures forall k :: i < k < j ==> !ReadFor(norm, s, i, k)
  {
    hide Overlaps;
    for k := i + 1 to |s|
      invariant forall m :: i < m < k ==> !ReadFor(norm, s, i, m)
    {
      if s[k].name != "read_file" { continue; }
      if Overlaps(norm, s[i], s[k]) { return k; }
    }
    return |s|;
  }

  /** The scan for the first misplaced patch. */
  method FindMove(norm: string -> string, s: seq<ToolCall>) returns (found: bool, i: nat, j: nat)
    ensures found ==> NextMove(norm, s, i, j)
    ensures !found ==> forall i': nat, j': nat :: !Misplaced(norm, s, i', j')
  {
    hide ReadFor;
    for k := 0 to |s|
      invariant forall i': nat, j': nat :: i' < k ==> !Misplaced(norm, s, i', j')
    {
      if s[k].name != "patch" { continue; }
      var prior := HasPriorRead(norm, s, k);
      if prior { continue; }
      var later := FirstReadAfter(norm, s, k);
      if later < |s| {
        return true, k, later;
      }
    }
    return false, 0, 0;
  }

  lemma NextIsMisplaced(norm: string -> string, s: seq<ToolCall>, i: nat, j: nat)
    requires NextMove(norm, s, i, j)
    ensures Misplaced(norm, s, i, j)
  {
  }

  /** Popping at `j` and inserting at `i` is the move. */
  lemma PopInsert(s: seq<ToolCall>, i: nat, j: nat)
    requires i < j < |s|
    ensures var popped := s[..j] + s[j+1..]; popped[..i] + [s[j]] + popped[i..] == MoveRead(s, i, j)
  {
  }

  lemma {:induction false} FirstReadFor(norm: string -> string, s: seq<ToolCall>, i: nat, j: nat) returns (k: nat)
    requires i < |s| && j < |s| && ReadFor(norm, s, i, j)
    ensures k < |s| && ReadFor(norm, s, i, k) && forall m :: 0 <= m < k ==> !ReadFor(norm, s, i, m)
  {
    hide ReadFor;
    if m :| 0 <= m < j && ReadFor(norm, s, i, m) {
      k := FirstReadFor(norm, s, i, m);
    } else {
      k := j;
    }
  }

  lemma NotItself(norm: string -> string, s: seq<ToolCall>, i: nat, k: nat)
    requires i < |s| && k < |s| && IsPatch(s[i]) && ReadFor(norm, s, i, k)
    ensures k != i
  {
  }

  lemma IntroMisplaced(norm: string -> string, s: seq<ToolCall>, i: nat, j: nat)
    requires i < j < |s| && IsPatch(s[i]) && ReadFor(norm, s, i, j)
    requires forall k :: 0 <= k < j ==> !ReadFor(norm, s, i, k)
    ensures Misplaced(norm, s, i, j)
  {
    hide ReadFor;
  }

  /** Where nothing is misplaced, every patch whose path is read at all is preceded by such a read. */
  lemma NoneMisplaced(norm: string -> string, s: seq<ToolCall>)
    requires forall i: nat, j: nat :: !Misplaced(norm, s, i, j)
    ensures forall i, j :: 0 <= i < |s| && 0 <= j < |s| && IsPatch(s[i]) && ReadFor(norm, s, i, j)
              ==> exists k :: 0 <= k < i && ReadFor(norm, s, i, k)
  {
    hide ReadFor, Misplaced;
    forall i, j | 0 <= i < |s| && 0 <= j < |s| && IsPatch(s[i]) && ReadFor(norm, s, i, j)
      ensures exists k :: 0 <= k < i && ReadFor(norm, s, i, k)
    {
      var k := FirstReadFor(norm, s, i, j);
      NotItself(norm, s, i, k);
      if i < k {
        IntroMisplaced(norm, s, i, k);
      }
    }
  }

  /** A `patch` and a `read_file` of the batch that work on overlapping paths. */
  ghost predicate PatchAndRead(norm: string -> string, calls: seq<ToolCall>, p: ToolCall, r: ToolCall) {
    p in calls && r in calls && p.name == "patch" && r.name == "read_file" && SharePath(norm, p, r)
  }

  /** Wherever `p` stands, a `read_file` of an overlapping path stands before it. */
  ghost predicate ReadFirst(norm: string -> string, ordered: seq<ToolCall>, p: ToolCall) {
    forall i :: 0 <= i < |ordered| && ordered[i] == p ==>
      exists k :: 0 <= k < i && ordered[k].name == "read_file" && SharePath(norm, p, ordered[k])
  }

  lemma SameMembers(a: seq<ToolCall>, b: seq<ToolCall>)
    requires multiset(a) == multiset(b)
    ensures |a| == |b| && forall c :: c in a <==> c in b
  {
    assert |multiset(a)| == |multiset(b)|;
    forall c ensures c in a <==> c in b {
      assert c in a <==> c in multiset(a);
      assert c in b <==> c in multiset(b);
    }
  }

  lemma ReorderedMembers(norm: string -> string, calls: seq<ToolCall>)
    ensures |Reordered(norm, calls)| == |calls|
    ensures forall c :: c in Reordered(norm, calls) <==> c in calls
  {
    hide Misplaced, Reordered, NonReads;
    ReorderedIsSafe(norm, calls);
    SameMembers(Reordered(norm, calls), calls);
  }

  /** A patch of the batch whose path is read at all ends up behind such a read. */
  lemma SharedPathIsReadFirst(norm: string -> string, calls: seq<ToolCall>, p: ToolCall, r: ToolCall)
    requires PatchAndRead(norm, calls, p, r)
    ensures ReadFirst(norm, Reordered(norm, calls), p)
  {
    hide Misplaced, Reordered, NonReads, SharePath, Overlaps;
    var o := Reordered(norm, calls);
    ReorderedIsSafe(norm, calls);
    ReorderedMembers(norm, calls);
    NoneMisplaced(norm, o);
    var j :| 0 <= j < |o| && o[j] == r;
    OverlapMeans(norm, p, r);
    forall i | 0 <= i < |o| && o[i] == p
      ensures exists k :: 0 <= k < i && o[k].name == "read_file" && SharePath(norm, p, o[k])
    {
      assert ReadFor(norm, o, i, j);
      var k :| 0 <= k < i && ReadFor(norm, o, i, k);
      OverlapMeans(norm, p, o[k]);
    }
  }

  lemma PathIsSet(call: ToolCall)
    requires "path" in call.args && Strip(call.args["path"]) != ""
    ensures SetTo(call, "path", Strip(call.args["path"]))
  {
    hide Strip;
  }

  lemma PathIsWorkedOn(call: ToolCall)
    requires "path" in call.args && Strip(call.args["path"]) != ""
    ensures WorksOn(call, Strip(call.args["path"]))
  {
    PathIsSet(call);
    hide SetTo, Strip, Lower;
  }

  lemma SamePathIsShared(norm: string -> string, a: ToolCall, b: ToolCall)
    requires "path" in a.args && "path" in b.args
    requires Strip(a.args["path"]) == Strip(b.args["path"]) != ""
    ensures SharePath(norm, a, b)
  {
    hide Strip, Inside, WorksOn;
    PathIsWorkedOn(a);
    PathIsWorkedOn(b);
  }

  lemma PatchAndReadIntro(norm: string -> string, calls: seq<ToolCall>, p: ToolCall, r: ToolCall)
    requires p in calls && r in calls && p.name == "patch" && r.name == "read_file" && SharePath(norm, p, r)
    ensures PatchAndRead(norm, calls, p, r)
  {
    hide SharePath;
  }

  /** In particular for one path given in the same argument to both. */
  lemma SamePathIsReadFirst(norm: string -> string, calls: seq<ToolCall>, p: ToolCall, r: ToolCall)
    requires p in calls && r in calls && p.name == "patch" && r.name == "read_file"
    requires "path" in p.args && "path" in r.args
    requires Strip(p.args["path"]) == Strip(r.args["path"]) != ""
    ensures ReadFirst(norm, Reordered(norm, calls), p)
  {
    hide *;
    SamePathIsShared(norm, p, r);
    PatchAndReadIntro(norm, calls, p, r);
    SharedPathIsReadFirst(norm, calls, p, r);
  }

  /** Every patch with a read of its path after it has one before it, too. */
  ghost predicate InOrder(norm: string -> string, s: seq<ToolCall>) {
    forall i, j :: 0 <= i < j < |s| && s[i].name == "patch" && s[j].name == "read_file" && SharePath(norm, s[i], s[j])
      ==> exists k :: 0 <= k < i && s[k].name == "read_file" && SharePath(norm, s[i], s[k])
  }

  lemma ReadForMeans(norm: string -> string, s: seq<ToolCall>, i: nat, k: nat)
    requires i < |s| && k < |s|
    ensures ReadFor(norm, s, i, k) <==> s[k].name == "read_file" && SharePath(norm, s[i], s[k])
  {
    hide Overlaps, SharePath;
    OverlapMeans(norm, s[i], s[k]);
  }

  lemma InOrderMovesNothing(norm: string -> string, s: seq<ToolCall>, i: nat, j: nat)
    requires InOrder(norm, s)
    ensures !Misplaced(norm, s, i, j)
  {
    hide ReadFor, SharePath;
    if Misplaced(norm, s, i, j) {
      ReadForMeans(norm, s, i, j);
      var k :| 0 <= k < i && s[k].name == "read_file" && SharePath(norm, s[i], s[k]);
      ReadForMeans(norm, s, i, k);
    }
  }

  lemma NothingMovesInOrder(norm: string -> string, s: seq<ToolCall>)
    requires forall i: nat, j: nat :: !Misplaced(norm, s, i, j)
    ensures InOrder(norm, s)
  {
    NoneMisplaced(norm, s);
    hide ReadFor, SharePath, Misplaced;
    forall i, j | 0 <= i < j < |s| && s[i].name == "patch" && s[j].name == "read_file" && SharePath(norm, s[i], s[j])
      ensures exists k :: 0 <= k < i && s[k].name == "read_file" && SharePath(norm, s[i], s[k])
    {
      ReadForMeans(norm, s, i, j);
      var k :| 0 <= k < i && ReadFor(norm, s, i, k);
      ReadForMeans(norm, s, i, k);
    }
  }

  /** The reordering leaves a batch in order as it is, and the order of the other calls as it was. */
  lemma ReorderedKeepsOrder(norm: string -> string, calls: seq<ToolCall>)
    ensures var ordered := Reordered(norm, calls);
            && InOrder(norm, ordered) && (InOrder(norm, calls) ==> ordered == calls)
            && exists others ::
                 Selects(calls, OtherPlaces(calls), others) && Selects(ordered, OtherPlaces(ordered), others)
  {
    hide *;
    var ordered := Reordered(norm, calls);
    ReorderedIsSafe(norm, calls);
    NothingMovesInOrder(norm, ordered);
    if InOrder(norm, calls) {
      forall i: nat, j: nat { InOrderMovesNothing(norm, calls, i, j); }
      ReorderedDone(norm, calls);
    }
    NonReadsMean(calls);
    NonReadsMean(ordered);
    assert Selects(ordered, OtherPlaces(ordered), NonReads(calls));
  }

  /** `reorder_reads_before_destructive`: the fixpoint loop. */
  method ReorderReadsBeforeDestructive(norm: string -> string, calls: seq<ToolCall>) returns (ordered: seq<ToolCall>)
    ensures ordered == Reordered(norm, calls)
    ensures multiset(ordered) == multiset(calls)
    ensures exists others ::
              Selects(calls, OtherPlaces(calls), others) && Selects(ordered, OtherPlaces(ordered), others)
    ensures forall p, r :: PatchAndRead(norm, calls, p, r) ==> ReadFirst(norm, ordered, p)
    ensures InOrder(norm, ordered) && (InOrder(norm, calls) ==> ordered == calls)
  {
    hide Misplaced, NextMove, MoveRead, Uncovered, Reordered, NonReads, IsDestructive, IsStaleRead;
    hide PatchAndRead, ReadFirst, InOrder, Selects, OtherPlaces;
    ordered := calls;
    if !BatchHasDestructiveAndReads(calls) {
      GateIsHarmless(norm, calls);
      ReorderedDone(norm, calls);
    } else {
      var changed := true;
      while changed
        invariant Reordered(norm, ordered) == Reordered(norm, calls)
        invariant !changed ==> forall i: nat, j: nat :: !Misplaced(norm, ordered, i, j)
        decreases Uncovered(norm, {}, ordered), changed
      {
        var found, i, j := FindMove(norm, ordered);
        changed := found;
        if found {
          ReorderedStep(norm, ordered, i, j);
          NextIsMisplaced(norm, ordered, i, j);
          MoveHelps(norm, ordered, i, j);
          PopInsert(ordered, i, j);
          var read := ordered[j];
          ordered := ordered[..j] + ordered[j+1..];
          ordered := ordered[..i] + [read] + ordered[i..];
        }
      }
      ReorderedDone(norm, ordered);
    }
    ReorderedIsSafe(norm, calls);
    ReorderedKeepsOrder(norm, calls);
    forall p, r | PatchAndRead(norm, calls, p, r) ensures ReadFirst(norm, ordered, p) {
      SharedPathIsReadFirst(norm, calls, p, r);
    }
  }

  // ---------------------------------------------------------------- the stale-read guard

  /** `destructive_tool_succeeded`, whether the write landed being told by its result. */
  predicate Landed(call: ToolCall, ok: bool) {
    IsDestructive(call.name) && ok
  }

  /** Some noted write normalises to the entry `p`. */
  ghost predicate Invalidates(norm: string -> string, writes: seq<ToolCall>, p: string) {
    exists k, q :: 0 <= k < |writes| && q in ScopePaths(writes[k]) && p == norm(q) && p != ""
  }

  ghost predicate NormalisedAmong(norm: string -> string, paths: seq<string>, n: nat, p: string)
    requires n <= |paths|
  {
    p != "" && exists k :: 0 <= k < n && p == norm(paths[k])
  }

  lemma AmongStep(norm: string -> string, paths: seq<string>, n: nat, p: string)
    requires n < |paths|
    ensures NormalisedAmong(norm, paths, n + 1, p) <==>
              NormalisedAmong(norm, paths, n, p) || (p != "" && p == norm(paths[n]))
  {
  }

  lemma AmongNone(norm: string -> string, paths: seq<string>, p: string)
    ensures !NormalisedAmong(norm, paths, 0, p)
  {
  }

  lemma InvalidatesStep(norm: string -> string, writes: seq<ToolCall>, call: ToolCall, p: string)
    ensures Invalidates(norm, writes + [call], p) <==>
            Invalidates(norm, writes, p) || NormalisedAmong(norm, ScopePaths(call), |ScopePaths(call)|, p)
  {
    hide ScopePaths;
    var more := writes + [call];
    if Invalidates(norm, writes, p) {
      var k, q :| 0 <= k < |writes| && q in ScopePaths(writes[k]) && p == norm(q) && p != "";
      assert more[k] == writes[k];
    }
    if NormalisedAmong(norm, ScopePaths(call), |ScopePaths(call)|, p) {
      var k :| 0 <= k < |ScopePaths(call)| && p == norm(ScopePaths(call)[k]);
      assert more[|writes|] == call && ScopePaths(call)[k] in ScopePaths(call);
    }
  }

  /** A path of the call overlaps a noted write's entry. */
  ghost predicate StaleBy(norm: string -> string, writes: seq<ToolCall>, call: ToolCall) {
    exists scope, p :: scope in ScopePaths(call) && Invalidates(norm, writes, p) && PathsOverlap(norm, scope, p)
  }

  /** `recorded` holds, each once, the normalised paths of the noted writes and of the first `n` of
      the `paths` of a write being noted. */
  ghost predicate Records(norm: string -> string, writes: seq<ToolCall>, paths: seq<string>, n: nat,
                          recorded: seq<string>)
  {
    && n <= |paths|
    && (forall p :: p in recorded <==> Invalidates(norm, writes, p) || NormalisedAmong(norm, paths, n, p))
    && (forall i, j :: 0 <= i < j < |recorded| ==> recorded[i] != recorded[j])
  }

  lemma RecordsNothing(norm: string -> string)
    ensures Records(norm, [], [], 0, [])
  {
    hide ScopePaths;
  }

  lemma RecordsAnyList(norm: string -> string, writes: seq<ToolCall>, these: seq<string>, those: seq<string>,
                       recorded: seq<string>)
    requires Records(norm, writes, these, 0, recorded)
    ensures Records(norm, writes, those, 0, recorded)
  {
    forall p { AmongNone(norm, these, p); }
    forall p { AmongNone(norm, those, p); }
    hide Invalidates, NormalisedAmong;
  }

  lemma RecordsStep(norm: string -> string, writes: seq<ToolCall>, paths: seq<string>, n: nat, recorded: seq<string>)
    requires n < |paths| && Records(norm, writes, paths, n, recorded)
    ensures var q := norm(paths[n]);
            Records(norm, writes, paths, n + 1, if q != "" && q !in recorded then recorded + [q] else recorded)
  {
    forall p { AmongStep(norm, paths, n, p); }
    hide Invalidates, NormalisedAmong;
  }

  lemma RecordsCall(norm: string -> string, writes: seq<ToolCall>, call: ToolCall, recorded: seq<string>)
    requires Records(norm, writes, ScopePaths(call), |ScopePaths(call)|, recorded)
    ensures Records(norm, writes + [call], [], 0, recorded)
  {
    forall p { InvalidatesStep(norm, writes, call, p); }
    forall p { AmongNone(norm, [], p); }
    hide Invalidates, NormalisedAmong, ScopePaths;
  }

  predicate Hit(norm: string -> string, recorded: seq<string>, scope: string) {
    exists p :: p in recorded && PathsOverlap(norm, scope, p)
  }

  predicate NoHit(norm: string -> string, recorded: seq<string>, scopes: seq<string>, n: nat) {
    n <= |scopes| && forall k :: 0 <= k < n ==> !Hit(norm, recorded, scopes[k])
  }

  lemma NoHitYet(norm: string -> string, recorded: seq<string>, scopes: seq<string>)
    ensures NoHit(norm, recorded, scopes, 0)
  {
  }

  lemma NextHit(norm: string -> string, recorded: seq<string>, scopes: seq<string>, n: nat)
    requires n < |scopes| && NoHit(norm, recorded, scopes, n)
    ensures if exists p :: p in recorded && PathsOverlap(norm, scopes[n], p) then
              !NoHit(norm, recorded, scopes, |scopes|)
            else NoHit(norm, recorded, scopes, n + 1)
  {
    hide PathsOverlap;
    assert Hit(norm, recorded, scopes[n]) <==> exists p :: p in recorded && PathsOverlap(norm, scopes[n], p);
    hide Hit;
  }

  /** Going by the recorded paths a call is stale exactly when one of its paths hits a noted write. */
  lemma StaleMeansHit(norm: string -> string, writes: seq<ToolCall>, recorded: seq<string>, call: ToolCall)
    requires Records(norm, writes, [], 0, recorded)
    ensures StaleBy(norm, writes, call) <==> !NoHit(norm, recorded, ScopePaths(call), |ScopePaths(call)|)
    ensures recorded == [] ==> !StaleBy(norm, writes, call)
  {
    forall p { AmongNone(norm, [], p); }
    hide PathsOverlap, Invalidates, ScopePaths, NormalisedAmong;
    if StaleBy(norm, writes, call) {
      var scope, p :| scope in ScopePaths(call) && Invalidates(norm, writes, p) && PathsOverlap(norm, scope, p);
      var i :| 0 <= i < |ScopePaths(call)| && ScopePaths(call)[i] == scope;
      assert p in recorded && Hit(norm, recorded, ScopePaths(call)[i]);
    }
  }

  /** Path resolution is idempotent and never yields the empty path. */
  ghost predicate Normalises(norm: string -> string) {
    forall p :: norm(norm(p)) == norm(p) && (p != "" ==> norm(p) != "")
  }

  lemma OverlapAfterNormalising(norm: string -> string, a: string, q: string)
    requires Normalises(norm) && q != ""
    ensures PathsOverlap(norm, a, norm(q)) == PathsOverlap(norm, a, q)
  {
  }

  lemma NormNonEmpty(norm: string -> string, q: string)
    requires Normalises(norm) && q != ""
    ensures norm(q) != ""
  {
  }

  lemma StaleMeansOverlap(norm: string -> string, writes: seq<ToolCall>, call: ToolCall)
    requires Normalises(norm) && StaleBy(norm, writes, call)
    ensures exists k :: 0 <= k < |writes| && Overlaps(norm, call, writes[k])
  {
    hide PathsOverlap, Normalises, ScopePaths;
    var scope, p :| scope in ScopePaths(call) && Invalidates(norm, writes, p) && PathsOverlap(norm, scope, p);
    var k, q :| 0 <= k < |writes| && q in ScopePaths(writes[k]) && p == norm(q) && p != "";
    OverlapAfterNormalising(norm, scope, q);
    var i :| 0 <= i < |ScopePaths(call)| && ScopePaths(call)[i] == scope;
    var j :| 0 <= j < |ScopePaths(writes[k])| && ScopePaths(writes[k])[j] == q;
    assert Overlaps(norm, call, writes[k]);
  }

  lemma OverlapMeansStale(norm: string -> string, writes: seq<ToolCall>, call: ToolCall, k: nat)
    requires Normalises(norm) && k < |writes| && Overlaps(norm, call, writes[k])
    ensures StaleBy(norm, writes, call)
  {
    hide PathsOverlap, Normalises, ScopePaths;
    var i, j :| 0 <= i < |ScopePaths(call)| && 0 <= j < |ScopePaths(writes[k])|
                && PathsOverlap(norm, ScopePaths(call)[i], ScopePaths(writes[k])[j]);
    var scope, q := ScopePaths(call)[i], ScopePaths(writes[k])[j];
    assert q in ScopePaths(writes[k]) && scope in ScopePaths(call);
    OverlapAfterNormalising(norm, scope, q);
    NormNonEmpty(norm, q);
    assert Invalidates(norm, writes, norm(q));
  }

  /** What the guard compares a read with amounts to overlap with a write. */
  lemma StaleIffOverlap(norm: string -> string, writes: seq<ToolCall>, call: ToolCall)
    requires Normalises(norm)
    ensures StaleBy(norm, writes, call) <==> exists k :: 0 <= k < |writes| && Overlaps(norm, call, writes[k])
    ensures StaleBy(norm, writes, call) <==> exists k :: 0 <= k < |writes| && SharePath(norm, call, writes[k])
  {
    forall k | 0 <= k < |writes| { OverlapMeans(norm, call, writes[k]); }
    hide StaleBy, Overlaps, Normalises, SharePath;
    if StaleBy(norm, writes, call) { StaleMeansOverlap(norm, writes, call); }
    if k :| 0 <= k < |writes| && Overlaps(norm, call, writes[k]) { OverlapMeansStale(norm, writes, call, k); }
  }

  class Guard {
    const norm: string -> string
    const enabled: bool
    var invalidatedPaths: seq<string>
    var lastWriter: string
    var skips: nat
    ghost var writes: seq<ToolCall>

    /** The recorded paths are the normalised paths of the writes noted so far, each once. */
    ghost predicate Valid()
      reads this
    {
      Records(norm, writes, [], 0, invalidatedPaths)
    }

    constructor (norm: string -> string, enabled: bool)
      ensures this.norm == norm && this.enabled == enabled && Valid()
      ensures writes == [] && skips == 0 && lastWriter == ""
    {
      RecordsNothing(norm);
      this.norm, this.enabled := norm, enabled;
      invalidatedPaths, lastWriter, skips, writes := [], "", 0, [];
    }

    method ShouldSkipStaleRead(call: ToolCall) returns (skip: bool)
      requires Valid()
      ensures skip <==> enabled && IsStaleRead(call.name) && StaleBy(norm, writes, call)
      ensures Normalises(norm) ==>
                (skip <==>
                   enabled && IsStaleRead(call.name)
                   && exists k :: 0 <= k < |writes| && SharePath(norm, call, writes[k]))
    {
      hide IsStaleRead, PathsOverlap, Records, ScopePaths, StaleBy, Hit, NoHit, SharePath, Normalises;
      if Normalises(norm) { StaleIffOverlap(norm, writes, call); }
      StaleMeansHit(norm, writes, invalidatedPaths, call);
      if !enabled || !IsStaleRead(call.name) || invalidatedPaths == [] { return false; }
      var scopes := ScopePaths(call);
      NoHitYet(norm, invalidatedPaths, scopes);
      for i := 0 to |scopes|
        invariant NoHit(norm, invalidatedPaths, scopes, i)
      {
        NextHit(norm, invalidatedPaths, scopes, i);
        if exists p :: p in invalidatedPaths && PathsOverlap(norm, scopes[i], p) {
          return true;
        }
      }
      return false;
    }

    method NoteToolResult(call: ToolCall, ok: bool)
      requires Valid()
      modifies this
      ensures Valid() && skips == old(skips)
      ensures writes == if enabled && IsDestructive(call.name) && ok then old(writes) + [call] else old(writes)
      ensures lastWriter == if enabled && IsDestructive(call.name) && ok then Strip(call.name) else old(lastWriter)
    {
      hide IsDestructive, ScopePaths, Records, Strip;
      if !enabled || !Landed(call, ok) { return; }
      var paths := ScopePaths(call);
      RecordsAnyList(norm, writes, [], paths, invalidatedPaths);
      for i := 0 to |paths|
        invariant writes == old(writes) && skips == old(skips)
        invariant Records(norm, writes, paths, i, invalidatedPaths)
      {
        var n := norm(paths[i]);
        RecordsStep(norm, writes, paths, i, invalidatedPaths);
        if n != "" && n !in invalidatedPaths {
          invalidatedPaths := invalidatedPaths + [n];
        }
      }
      lastWriter := Strip(call.name);
      RecordsCall(norm, writes, call, invalidatedPaths);
      writes := writes + [call];
    }

    method RecordSkip()
      requires Valid()
      modifies `skips
      ensures Valid() && skips == old(skips) + 1
    {
      skips := skips + 1;
    }
  }

  // ---------------------------------------------------------------- a batch under the guard

  /** What becomes of one call of a batch. */
  datatype CallResult = Interrupted | Halted | SkippedStale | Executed

  /** What happens around one call: the interrupt checks before and after it, a halt decision on
      record when its turn comes, and whether its write, if it is one, lands. */
  datatype World = World(interruptBefore: bool, halted: bool, lands: bool, interruptAfter: bool)

  /** One of the first `k` calls found the batch interrupted, or left it so. */
  ghost predicate InterruptedWithin(world: seq<World>, results: seq<CallResult>, k: nat)
    requires k <= |results| && k <= |world|
  {
    exists i :: 0 <= i < k && (world[i].interruptBefore || (results[i].Executed? && world[i].interruptAfter))
  }

  /** An earlier write of the batch was executed and landed on the path of the call at `k`. */
  ghost predicate WrittenBefore(norm: string -> string, calls: seq<ToolCall>, world: seq<World>,
                                results: seq<CallResult>, k: nat)
    requires k < |calls| == |world| && k <= |results|
  {
    exists i :: 0 <= i < k && results[i].Executed? && Landed(calls[i], world[i].lands)
        && Overlaps(norm, calls[k], calls[i])
  }

  /** The result of the call at `k`, told from the results before it. */
  ghost function ResultAt(norm: string -> string, enabled: bool, calls: seq<ToolCall>, world: seq<World>,
                          results: seq<CallResult>, k: nat): CallResult
    requires k < |calls| == |world| && k <= |results|
  {
    if world[k].interruptBefore || InterruptedWithin(world, results, k) then Interrupted
    else if world[k].halted then Halted
    else if enabled && IsStaleRead(calls[k].name) && WrittenBefore(norm, calls, world, results, k) then SkippedStale
    else Executed
  }

  /** The writes noted while the first `n` calls of a batch were handled. */
  ghost predicate NotedUpTo(writes: seq<ToolCall>, calls: seq<ToolCall>, world: seq<World>, results: seq<CallResult>,
                            n: nat)
    requires n <= |calls| == |world| && n <= |results|
  {
    forall w :: w in writes <==>
      exists i :: 0 <= i < n && calls[i] == w && results[i].Executed? && Landed(calls[i], world[i].lands)
  }

  lemma NotedStep(writes: seq<ToolCall>, calls: seq<ToolCall>, world: seq<World>, results: seq<CallResult>,
                  r: CallResult)
    requires |results| < |calls| == |world| && NotedUpTo(writes, calls, world, results, |results|)
    ensures var n := |results|;
            var more := if r.Executed? && Landed(calls[n], world[n].lands) then writes + [calls[n]] else writes;
            NotedUpTo(more, calls, world, results + [r], n + 1)
  {
    hide Landed;
    var n := |results|;
    var more := if r.Executed? && Landed(calls[n], world[n].lands) then writes + [calls[n]] else writes;
    forall w
      ensures w in more <==>
              exists i :: 0 <= i < n + 1 && calls[i] == w && (results + [r])[i].Executed?
                  && Landed(calls[i], world[i].lands)
    {
      if w in writes {
        var i :| 0 <= i < n && calls[i] == w && results[i].Executed? && Landed(calls[i], world[i].lands);
        assert (results + [r])[i].Executed?;
      }
      if i :| 0 <= i < n && calls[i] == w && (results + [r])[i].Executed? && Landed(calls[i], world[i].lands) {
        assert results[i].Executed?;
      }
    }
  }

  lemma WrittenIffNoted(norm: string -> string, writes: seq<ToolCall>, calls: seq<ToolCall>, world: seq<World>,
                        results: seq<CallResult>)
    requires |results| < |calls| == |world| && NotedUpTo(writes, calls, world, results, |results|)
    ensures (exists k :: 0 <= k < |writes| && Overlaps(norm, calls[|results|], writes[k]))
            <==> WrittenBefore(norm, calls, world, results, |results|)
  {
    hide Landed, Overlaps;
    var n := |results|;
    if k :| 0 <= k < |writes| && Overlaps(norm, calls[n], writes[k]) {
      assert writes[k] in writes;
      var i :| 0 <= i < n && calls[i] == writes[k] && results[i].Executed? && Landed(calls[i], world[i].lands);
      assert Overlaps(norm, calls[n], calls[i]);
    }
    if WrittenBefore(norm, calls, world, results, n) {
      var i :| 0 <= i < n && results[i].Executed? && Landed(calls[i], world[i].lands)
          && Overlaps(norm, calls[n], calls[i]);
      assert calls[i] in writes;
      var k :| 0 <= k < |writes| && writes[k] == calls[i];
    }
  }

  lemma StaleIffWritten(norm: string -> string, writes: seq<ToolCall>, calls: seq<ToolCall>, world: seq<World>,
                        results: seq<CallResult>)
    requires Normalises(norm)
    requires |results| < |calls| == |world| && NotedUpTo(writes, calls, world, results, |results|)
    ensures StaleBy(norm, writes, calls[|results|]) <==> WrittenBefore(norm, calls, world, results, |results|)
  {
    hide *;
    StaleIffOverlap(norm, writes, calls[|results|]);
    WrittenIffNoted(norm, writes, calls, world, results);
  }

  lemma InterruptStep(world: seq<World>, results: seq<CallResult>, r: CallResult)
    requires |results| < |world|
    ensures var n := |results|;
            InterruptedWithin(world, results + [r], n + 1) <==>
            InterruptedWithin(world, results, n) || world[n].interruptBefore || (r.Executed? && world[n].interruptAfter)
  {
    var n := |results|;
    var more := results + [r];
    assert forall i :: 0 <= i < n ==> more[i] == results[i];
    assert more[n] == r;
  }

  /** The results so far are what `ResultAt` says, each from those before it. */
  ghost predicate ResultsUpTo(norm: string -> string, enabled: bool, calls: seq<ToolCall>, world: seq<World>,
                              results: seq<CallResult>)
    requires |results| <= |calls| == |world|
  {
    forall k :: 0 <= k < |results| ==> results[k] == ResultAt(norm, enabled, calls, world, results[..k], k)
  }

  lemma ResultsStep(norm: string -> string, enabled: bool, calls: seq<ToolCall>, world: seq<World>,
                    results: seq<CallResult>)
    requires |results| < |calls| == |world| && ResultsUpTo(norm, enabled, calls, world, results)
    ensures ResultsUpTo(norm, enabled, calls, world,
                        results + [ResultAt(norm, enabled, calls, world, results, |results|)])
  {
    hide ResultAt;
    var more := results + [ResultAt(norm, enabled, calls, world, results, |results|)];
    forall k | 0 <= k < |more| ensures more[k] == ResultAt(norm, enabled, calls, world, more[..k], k) {
      assert more[..k] == results[..k];
      assert results[..|results|] == results;
    }
  }

  lemma NothingNoted(norm: string -> string, enabled: bool, calls: seq<ToolCall>, world: seq<World>)
    requires |calls| == |world|
    ensures NotedUpTo([], calls, world, [], 0) && ResultsUpTo(norm, enabled, calls, world, [])
    ensures !InterruptedWithin(world, [], 0)
  {
  }

  /** A batch run one call at a time: once interrupted it stays so, a recorded halt holds a call back,
      and otherwise a call is skipped exactly when it is a stale read and a write executed earlier in
      the batch landed on its path. */
  method RunSequentially(g: Guard, calls: seq<ToolCall>, world: seq<World>) returns (results: seq<CallResult>)
    requires g.Valid() && g.writes == [] && Normalises(g.norm) && |world| == |calls|
    modifies g
    ensures g.Valid() && |results| == |calls| && ResultsUpTo(g.norm, g.enabled, calls, world, results)
    ensures g.enabled ==> NotedUpTo(g.writes, calls, world, results, |calls|)
  {
    hide Normalises, NotedUpTo, ResultsUpTo, InterruptedWithin, IsStaleRead, IsDestructive, ScopePaths;
    hide PathsOverlap, Records, WrittenBefore, StaleBy, SharePath, Overlaps;
    results := [];
    NothingNoted(g.norm, g.enabled, calls, world);
    var interrupted := false;
    for n := 0 to |calls|
      invariant g.Valid() && |results| == n && ResultsUpTo(g.norm, g.enabled, calls, world, results)
      invariant g.enabled ==> NotedUpTo(g.writes, calls, world, results, n)
      invariant interrupted <==> InterruptedWithin(world, results, n)
    {
      ghost var r := ResultAt(g.norm, g.enabled, calls, world, results, n);
      ResultsStep(g.norm, g.enabled, calls, world, results);
      InterruptStep(world, results, r);
      if g.enabled {
        StaleIffWritten(g.norm, g.writes, calls, world, results);
        NotedStep(g.writes, calls, world, results, r);
      }
      if interrupted || world[n].interruptBefore {
        interrupted := true;
        results := results + [Interrupted];
        continue;
      }
      if world[n].halted {
        results := results + [Halted];
        continue;
      }
      var skip := g.ShouldSkipStaleRead(calls[n]);
      if skip {
        g.RecordSkip();
        results := results + [SkippedStale];
        continue;
      }
      g.NoteToolResult(calls[n], world[n].lands);
      results := results + [Executed];
      if world[n].interruptAfter { interrupted := true; }
    }
  }

  // ---------------------------------------------------------------- the results, told from the calls

  /** The batch is interrupted when the turn of the call at `k` comes. */
  ghost predicate InterruptedAt(world: seq<World>, results: seq<CallResult>, k: nat)
    requires k < |world| && k <= |results|
  {
    || (exists i :: 0 <= i <= k && world[i].interruptBefore)
    || (exists i :: 0 <= i < k && results[i] == Executed && world[i].interruptAfter)
  }

  /** A write to a path of the call at `k` was executed earlier in the batch, and landed. */
  ghost predicate LandedBefore(norm: string -> string, calls: seq<ToolCall>, world: seq<World>,
                               results: seq<CallResult>, k: nat)
    requires k < |calls| == |world| && k <= |results|
  {
    exists i :: 0 <= i < k && results[i] == Executed && IsDestructive(calls[i].name) && world[i].lands
                && SharePath(norm, calls[k], calls[i])
  }

  lemma InterruptedMeans(world: seq<World>, results: seq<CallResult>, k: nat)
    requires k < |world| && k <= |results|
    ensures InterruptedAt(world, results, k) <==> world[k].interruptBefore || InterruptedWithin(world, results, k)
  {
  }

  lemma WrittenMeans(norm: string -> string, calls: seq<ToolCall>, world: seq<World>, results: seq<CallResult>, k: nat)
    requires k < |calls| == |world| && k <= |results|
    ensures WrittenBefore(norm, calls, world, results, k) <==> LandedBefore(norm, calls, world, results, k)
  {
    hide Overlaps, SharePath, IsDestructive;
    forall i | 0 <= i < k { OverlapMeans(norm, calls[k], calls[i]); }
    if i :| 0 <= i < k && results[i].Executed? && Landed(calls[i], world[i].lands)
            && Overlaps(norm, calls[k], calls[i])
    {
      assert SharePath(norm, calls[k], calls[i]);
    }
    if LandedBefore(norm, calls, world, results, k) {
      var i :| 0 <= i < k && results[i] == Executed && IsDestructive(calls[i].name) && world[i].lands
               && SharePath(norm, calls[k], calls[i]);
      assert Landed(calls[i], world[i].lands) && Overlaps(norm, calls[k], calls[i]);
    }
  }

  /** What becomes of each call of a batch: interrupted, once an interrupt was seen; else held back by a
      recorded halt; else skipped exactly when the guard is on, the call is a read that goes stale, and
      a write executed before it landed on its path; else executed. */
  lemma ResultsMean(norm: string -> string, enabled: bool, calls: seq<ToolCall>, world: seq<World>,
                    results: seq<CallResult>, k: nat)
    requires k < |results| <= |calls| == |world| && ResultsUpTo(norm, enabled, calls, world, results)
    ensures results[k] == Interrupted <==> InterruptedAt(world, results, k)
    ensures results[k] == Halted <==> !InterruptedAt(world, results, k) && world[k].halted
    ensures results[k] == SkippedStale <==>
              !InterruptedAt(world, results, k) && !world[k].halted
              && enabled && IsStaleRead(calls[k].name) && LandedBefore(norm, calls, world, results, k)
  {
    var before := results[..k];
    assert results[k] == ResultAt(norm, enabled, calls, world, before, k);
    InterruptedMeans(world, before, k);
    WrittenMeans(norm, calls, world, before, k);
    assert forall i :: 0 <= i < k ==> before[i] == results[i];
    assert InterruptedAt(world, before, k) <==> InterruptedAt(world, results, k);
    assert LandedBefore(norm, calls, world, before, k) <==> LandedBefore(norm, calls, world, results, k) by {
      hide SharePath, IsDestructive, InterruptedAt;
    }
    hide InterruptedAt, LandedBefore, InterruptedWithin, WrittenBefore, IsStaleRead;
  }

  lemma LandedBeforeIntro(norm: string -> string, calls: seq<ToolCall>, world: seq<World>,
                          results: seq<CallResult>, i: nat, k: nat)
    requires i < k < |calls| == |world| && k <= |results|
    requires results[i] == Executed && IsDestructive(calls[i].name) && world[i].lands
    requires SharePath(norm, calls[k], calls[i])
    ensures LandedBefore(norm, calls, world, results, k)
  {
    hide SharePath, IsDestructive;
  }

  /** A `read_file` after a landed `patch` of the same path is not executed while the guard is on. */
  lemma PatchedPathIsNotReread(norm: string -> string, calls: seq<ToolCall>, world: seq<World>,
                               results: seq<CallResult>, i: nat, k: nat)
    requires i < k < |results| <= |calls| == |world| && ResultsUpTo(norm, true, calls, world, results)
    requires calls[i].name == "patch" && results[i] == Executed && world[i].lands
    requires calls[k].name == "read_file" && "path" in calls[i].args && "path" in calls[k].args
    requires Strip(calls[i].args["path"]) == Strip(calls[k].args["path"]) != ""
    ensures results[k] != Executed
    ensures !InterruptedAt(world, results, k) && !world[k].halted ==> results[k] == SkippedStale
  {
    hide *;
    PlainNames();
    SamePathIsShared(norm, calls[k], calls[i]);
    LandedBeforeIntro(norm, calls, world, results, i, k);
    ResultsMean(norm, true, calls, world, results, k);
  }

  // ---------------------------------------------------------------- reordering and guard together

  /** One path per call, and two paths of the batch either normalise alike or do not overlap. */
  ghost predicate OnePathEach(norm: string -> string, s: seq<ToolCall>) {
    && (forall c :: c in s ==> |ScopePaths(c)| == 1)
    && forall a, b :: a in s && b in s && Overlaps(norm, a, b) ==> norm(ScopePaths(a)[0]) == norm(ScopePaths(b)[0])
  }

  lemma SamePathOverlaps(norm: string -> string, a: ToolCall, b: ToolCall)
    requires |ScopePaths(a)| == 1 && |ScopePaths(b)| == 1 && norm(ScopePaths(a)[0]) == norm(ScopePaths(b)[0])
    ensures Overlaps(norm, a, b)
  {
    hide ScopePaths;
    assert ScopePaths(a)[0] in ScopePaths(a) && ScopePaths(b)[0] in ScopePaths(b);
    assert PathsOverlap(norm, ScopePaths(a)[0], ScopePaths(b)[0]);
  }

  lemma OverlapThroughPatch(norm: string -> string, s: seq<ToolCall>, a: ToolCall, p: ToolCall, b: ToolCall)
    requires OnePathEach(norm, s) && a in s && p in s && b in s
    requires Overlaps(norm, p, a) && Overlaps(norm, p, b)
    ensures Overlaps(norm, a, b)
  {
    hide ScopePaths, Overlaps;
    SamePathOverlaps(norm, a, b);
  }

  /** In a batch whose only writer is `patch`, with one path per call and paths equal or apart, the
      first read of a path comes before every patch of it, and the guard never skips it. */
  lemma FirstReadIsFresh(norm: string -> string, enabled: bool, calls: seq<ToolCall>, k: nat,
                         world: seq<World>, results: seq<CallResult>)
    requires OnePathEach(norm, calls) && forall c :: c in calls && IsDestructive(c.name) ==> IsPatch(c)
    requires k < |Reordered(norm, calls)| == |world| && k <= |results| && IsRead(Reordered(norm, calls)[k])
    requires forall m :: 0 <= m < k && IsRead(Reordered(norm, calls)[m])
               ==> !Overlaps(norm, Reordered(norm, calls)[m], Reordered(norm, calls)[k])
    ensures var o := Reordered(norm, calls);
            && (forall i :: 0 <= i < |o| && IsPatch(o[i]) && Overlaps(norm, o[i], o[k]) ==> k < i)
            && !ResultAt(norm, enabled, o, world, results, k).SkippedStale?
  {
    var o := Reordered(norm, calls);
    hide Misplaced, Reordered, NonReads, Overlaps, OnePathEach, IsDestructive, IsStaleRead, InterruptedWithin;
    ReorderedMembers(norm, calls);
    ReorderedIsSafe(norm, calls);
    NoneMisplaced(norm, o);
    forall i | 0 <= i < |o| && IsPatch(o[i]) && Overlaps(norm, o[i], o[k]) ensures k < i {
      assert ReadFor(norm, o, i, k);
      var m :| 0 <= m < i && ReadFor(norm, o, i, m);
      assert o[m] in o && o[i] in o && o[k] in o;
      OverlapThroughPatch(norm, calls, o[m], o[i], o[k]);
    }
    forall i | 0 <= i < k && Landed(o[i], world[i].lands) ensures !Overlaps(norm, o[k], o[i]) {
      assert o[i] in o;
      OverlapIsSymmetric(norm, o[k], o[i]);
    }
  }
}
