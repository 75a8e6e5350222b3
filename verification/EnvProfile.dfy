/** Rewriting the managed part of an env file, line by line, for one of several profiles. */
module EnvProfile {
  import opened Sequences
  import opened Text

  /** The keys a profile sets, in order, and the comment lines that open its block. */
  datatype Profile = Profile(values: seq<(string, string)>, comments: seq<string>)

  // ---------------------------------------------------------------- lines

  /** `^#\s*===\s*Terminal Profile:` on the stripped line. */
  predicate IsHeader(line: string) {
    var s := Strip(line);
    && s != "" && s[0] == '#'
    && var r := LStrip(s[1..]);
       StartsWith(r, "===") && StartsWith(LStrip(r[3..]), "Terminal Profile:")
  }

  predicate IsBlank(line: string) { Strip(line) == "" }

  predicate IsComment(line: string) { StartsWith(LStrip(line), "#") }

  /** The part before the first `=`, the whole line when there is none. */
  function BeforeEquals(s: string): (r: string)
    ensures '=' !in r && r <= s
    ensures if '=' in s then |r| < |s| && s[|r|] == '=' else r == s
  {
    if s == "" || s[0] == '=' then "" else [s[0]] + BeforeEquals(s[1..])
  }

  function KeyOf(line: string): string { Strip(BeforeEquals(line)) }

  /** A line that sets a key. */
  predicate IsSetting(line: string) { '=' in line && !IsComment(line) }

  function ValueOf(line: string): string
    requires '=' in line
  {
    line[|BeforeEquals(line)| + 1..]
  }

  predicate IsManagedSetting(managed: set<string>, line: string) {
    IsSetting(line) && KeyOf(line) in managed
  }

  // ---------------------------------------------------------------- the script, as functions

  /** Inside a profile block these lines go with it. */
  predicate BelongsToBlock(managed: set<string>, line: string) {
    StartsWith(Strip(line), "#") || KeyOf(Strip(line)) in managed
  }

  function Kept(managed: set<string>, lines: seq<string>, skipping: bool): seq<string> {
    if lines == [] then []
    else
      var line, rest := lines[0], lines[1..];
      if IsHeader(line) then Kept(managed, rest, true)
      else if skipping && IsBlank(line) then Kept(managed, rest, false)
      else if skipping && BelongsToBlock(managed, line) then Kept(managed, rest, true)
      else if IsManagedSetting(managed, line) then Kept(managed, rest, false)
      else [line] + Kept(managed, rest, false)
  }

  function DropTrailingBlanks(lines: seq<string>): seq<string> {
    if lines == [] || !IsBlank(lines[|lines|-1]) then lines else DropTrailingBlanks(lines[..|lines|-1])
  }

  function Stripped(managed: set<string>, lines: seq<string>): seq<string> {
    DropTrailingBlanks(Kept(managed, lines, false))
  }

  function SettingLines(values: seq<(string, string)>): seq<string> {
    seq(|values|, i requires 0 <= i < |values| => values[i].0 + "=" + values[i].1)
  }

  function Block(p: Profile): seq<string> {
    [""] + p.comments + SettingLines(p.values)
  }

  function Applied(managed: set<string>, lines: seq<string>, p: Profile): seq<string> {
    Stripped(managed, lines) + Block(p)
  }

  /** After the stripped lines: a blank line, the comments, and one `key=value` line per entry. */
  ghost predicate IsFollowedBy(stripped: seq<string>, p: Profile, updated: seq<string>) {
    var n, m := |stripped|, |p.comments|;
    && |updated| == n + 1 + m + |p.values|
    && (forall i :: 0 <= i < n ==> updated[i] == stripped[i]) && updated[n] == ""
    && (forall i :: 0 <= i < m ==> updated[n + 1 + i] == p.comments[i])
    && (forall i :: 0 <= i < |p.values| ==> updated[n + 1 + m + i] == p.values[i].0 + "=" + p.values[i].1)
  }

  // ---------------------------------------------------------------- stripping is idempotent

  /** Nothing the script would remove, outside a block. */
  ghost predicate Clean(managed: set<string>, lines: seq<string>) {
    forall i :: 0 <= i < |lines| ==> !IsHeader(lines[i]) && !IsManagedSetting(managed, lines[i])
  }

  ghost predicate EndsInk(lines: seq<string>) {
    lines != [] ==> !IsBlank(lines[|lines|-1])
  }

  lemma {:induction false} KeptIsClean(managed: set<string>, lines: seq<string>, skipping: bool)
    ensures Clean(managed, Kept(managed, lines, skipping))
  {
    hide IsHeader, IsBlank, IsManagedSetting, BelongsToBlock;
    if lines != [] {
      KeptIsClean(managed, lines[1..], true);
      KeptIsClean(managed, lines[1..], false);
    }
  }

  lemma {:induction false} CleanIsKept(managed: set<string>, lines: seq<string>)
    requires Clean(managed, lines)
    ensures Kept(managed, lines, false) == lines
  {
    hide IsHeader, IsBlank, IsManagedSetting, BelongsToBlock;
    if lines != [] {
      assert Clean(managed, lines[1..]) by {
        forall i | 0 <= i < |lines[1..]| ensures !IsHeader(lines[1..][i]) && !IsManagedSetting(managed, lines[1..][i]) {
          assert lines[1..][i] == lines[i+1];
        }
      }
      CleanIsKept(managed, lines[1..]);
    }
  }

  lemma {:induction false} DroppedIsPrefix(lines: seq<string>)
    ensures DropTrailingBlanks(lines) <= lines && EndsInk(DropTrailingBlanks(lines))
    ensures forall i :: |DropTrailingBlanks(lines)| <= i < |lines| ==> IsBlank(lines[i])
  {
    hide IsBlank;
    if lines != [] && IsBlank(lines[|lines|-1]) {
      DroppedIsPrefix(lines[..|lines|-1]);
      var r := DropTrailingBlanks(lines[..|lines|-1]);
      forall i | |r| <= i < |lines| ensures IsBlank(lines[i]) {
        if i < |lines| - 1 { assert lines[i] == lines[..|lines|-1][i]; }
      }
    }
  }

  lemma StrippedIsClean(managed: set<string>, lines: seq<string>)
    ensures Clean(managed, Stripped(managed, lines)) && EndsInk(Stripped(managed, lines))
  {
    hide IsHeader, IsManagedSetting, IsBlank;
    var kept := Kept(managed, lines, false);
    KeptIsClean(managed, lines, false);
    DroppedIsPrefix(kept);
    var s := Stripped(managed, lines);
    forall i | 0 <= i < |s| ensures !IsHeader(s[i]) && !IsManagedSetting(managed, s[i]) { assert s[i] == kept[i]; }
  }

  lemma InkStays(lines: seq<string>)
    requires EndsInk(lines)
    ensures DropTrailingBlanks(lines) == lines
  {
  }

  /** Stripping twice is stripping once. */
  lemma StripIsIdempotent(managed: set<string>, lines: seq<string>)
    ensures Stripped(managed, Stripped(managed, lines)) == Stripped(managed, lines)
  {
    StrippedIsClean(managed, lines);
    CleanIsKept(managed, Stripped(managed, lines));
    InkStays(Stripped(managed, lines));
  }

  // ---------------------------------------------------------------- profiles that compose

  /** What the profile tables satisfy: the block opens with its header and is all comments, and each
      key is managed, set once, and a plain name. */
  ghost predicate PlainKey(key: string) {
    key != "" && Trimmed(key) && '=' !in key && key[0] != '#'
  }

  ghost predicate SoundProfile(managed: set<string>, p: Profile) {
    && p.comments != [] && IsHeader(p.comments[0])
    && (forall i :: 0 <= i < |p.comments| ==> StartsWith(p.comments[i], "#"))
    && (forall i :: 0 <= i < |p.values| ==> p.values[i].0 in managed && PlainKey(p.values[i].0))
    && (forall i, j :: 0 <= i < j < |p.values| ==> p.values[i].0 != p.values[j].0)
  }

  lemma {:induction false} CutAtEquals(key: string, value: string)
    requires '=' !in key
    ensures BeforeEquals(key + "=" + value) == key
  {
    var line := key + "=" + value;
    if key == "" {
      assert line[0] == '=';
    } else {
      assert line[0] == key[0] && line[1..] == key[1..] + "=" + value;
      CutAtEquals(key[1..], value);
    }
  }

  lemma {:induction false} RStripKeepsInk(s: string, n: nat)
    requires n < |s| && !IsSpace(s[n])
    ensures |RStrip(s)| > n && s[..n+1] <= RStrip(s)
  {
    if IsSpace(s[|s|-1]) {
      RStripKeepsInk(s[..|s|-1], n);
      assert s[..|s|-1][..n+1] == s[..n+1];
    }
  }

  lemma KeyReadsBack(key: string, rest: string)
    requires PlainKey(key)
    ensures var line := key + "=" + rest;
            line != "" && line[0] == key[0] && '=' in line && KeyOf(line) == key && ValueOf(line) == rest
  {
    hide IsSpace;
    var line := key + "=" + rest;
    CutAtEquals(key, rest);
    StripOfTrimmed(key);
    assert line[|key|] == '=' && line[0] == key[0];
    assert line[|key|+1..] == rest;
  }

  lemma StripKeepsKey(key: string, value: string) returns (rest: string)
    requires PlainKey(key)
    ensures LStrip(key + "=" + value) == key + "=" + value
    ensures Strip(key + "=" + value) == key + "=" + rest
  {
    var line := key + "=" + value;
    assert line[0] == key[0] && line[|key|] == '=';
    assert LStrip(line) == line;
    assert !IsSpace('=');
    hide IsSpace, LStrip;
    RStripKeepsInk(line, |key|);
    var s := Strip(line);
    rest := s[|key|+1..];
    assert s[..|key|+1] == line[..|key|+1] == key + "=";
    assert s == s[..|key|+1] + rest;
  }

  /** A written setting line reads back as that key and that value. */
  lemma SettingLineReadsBack(key: string, value: string)
    requires PlainKey(key)
    ensures var line := key + "=" + value;
            && IsSetting(line) && KeyOf(line) == key && ValueOf(line) == value
            && !IsHeader(line) && !IsBlank(line)
            && KeyOf(Strip(line)) == key
  {
    var rest := StripKeepsKey(key, value);
    KeyReadsBack(key, value);
    KeyReadsBack(key, rest);
    hide KeyOf, ValueOf, Strip, LStrip, BeforeEquals, IsSpace;
    assert Strip(key + "=" + value)[0] == key[0];
  }

  // ---------------------------------------------------------------- last profile wins

  /** Inside a block, comments and managed settings are all dropped. */
  lemma {:induction false} BlockVanishes(managed: set<string>, lines: seq<string>)
    requires forall i :: 0 <= i < |lines| ==>
              IsHeader(lines[i]) || (!IsBlank(lines[i]) && BelongsToBlock(managed, lines[i]))
    ensures Kept(managed, lines, true) == []
  {
    hide IsHeader, IsBlank, BelongsToBlock, IsManagedSetting;
    if lines != [] {
      forall i | 0 <= i < |lines[1..]|
        ensures IsHeader(lines[1..][i]) || (!IsBlank(lines[1..][i]) && BelongsToBlock(managed, lines[1..][i]))
      {
        assert lines[1..][i] == lines[i+1];
      }
      BlockVanishes(managed, lines[1..]);
    }
  }

  /** Clean lines in front of a header are kept, and the header starts skipping. */
  lemma {:induction false} CleanThenHeader(managed: set<string>, front: seq<string>, header: string, rest: seq<string>)
    requires Clean(managed, front) && IsHeader(header)
    ensures Kept(managed, front + [header] + rest, false) == front + Kept(managed, rest, true)
  {
    hide IsHeader, IsBlank, BelongsToBlock, IsManagedSetting;
    var all := front + [header] + rest;
    if front == [] {
      assert all[1..] == rest;
    } else {
      assert all[0] == front[0] && all[1..] == front[1..] + [header] + rest;
      assert Clean(managed, front[1..]) by {
        forall i | 0 <= i < |front[1..]| ensures !IsHeader(front[1..][i]) && !IsManagedSetting(managed, front[1..][i]) {
          assert front[1..][i] == front[i+1];
        }
      }
      CleanThenHeader(managed, front[1..], header, rest);
    }
  }

  lemma RStripHash(line: string)
    requires line != "" && line[0] == '#'
    ensures RStrip(line) != "" && RStrip(line)[0] == '#'
  {
    assert !IsSpace('#');
    RStripKeepsInk(line, 0);
  }

  lemma CommentBelongs(managed: set<string>, line: string)
    requires StartsWith(line, "#")
    ensures !IsBlank(line) && BelongsToBlock(managed, line) && !IsSetting(line)
  {
    assert line[0] == '#' && !IsSpace('#');
    assert LStrip(line) == line;
    hide IsSpace, LStrip;
    RStripHash(line);
  }

  lemma BlankIsClean(managed: set<string>)
    ensures !IsHeader("") && !IsManagedSetting(managed, "") && IsBlank("")
  {
  }

  lemma SettingBelongs(managed: set<string>, key: string, value: string)
    requires PlainKey(key) && key in managed
    ensures !IsBlank(key + "=" + value) && BelongsToBlock(managed, key + "=" + value)
  {
    hide IsBlank, KeyOf, Strip;
    SettingLineReadsBack(key, value);
  }

  lemma BlockBody(managed: set<string>, p: Profile)
    requires SoundProfile(managed, p)
    ensures Block(p) == [""] + [p.comments[0]] + (p.comments[1..] + SettingLines(p.values))
    ensures Kept(managed, p.comments[1..] + SettingLines(p.values), true) == []
  {
    hide IsHeader, IsBlank, BelongsToBlock, IsManagedSetting, PlainKey;
    var body, m := p.comments[1..] + SettingLines(p.values), |p.comments| - 1;
    forall i | 0 <= i < |body| ensures !IsBlank(body[i]) && BelongsToBlock(managed, body[i]) {
      if i < m {
        assert body[i] == p.comments[i+1];
        CommentBelongs(managed, body[i]);
      } else {
        SettingBelongs(managed, p.values[i-m].0, p.values[i-m].1);
      }
    }
    BlockVanishes(managed, body);
  }

  lemma DropTrailingBlank(lines: seq<string>)
    requires EndsInk(lines)
    ensures DropTrailingBlanks(lines + [""]) == lines
  {
    var more := lines + [""];
    assert more[..|more|-1] == lines && IsBlank("");
    InkStays(lines);
  }

  lemma StrippedUnfold(managed: set<string>, lines: seq<string>)
    ensures Stripped(managed, lines) == DropTrailingBlanks(Kept(managed, lines, false))
  {
  }

  /** Stripping a file a profile was applied to gives the stripped original. */
  lemma StripUndoesApply(managed: set<string>, lines: seq<string>, p: Profile)
    requires SoundProfile(managed, p)
    ensures Stripped(managed, Applied(managed, lines, p)) == Stripped(managed, lines)
  {
    hide IsHeader, IsBlank, IsManagedSetting, Kept, DropTrailingBlanks, Block;
    var s := Stripped(managed, lines);
    hide Stripped;
    StrippedIsClean(managed, lines);
    BlankIsClean(managed);
    BlockBody(managed, p);
    var rest := p.comments[1..] + SettingLines(p.values);
    assert Applied(managed, lines, p) == (s + [""]) + [p.comments[0]] + rest;
    CleanThenHeader(managed, s + [""], p.comments[0], rest);
    DropTrailingBlank(s);
    assert (s + [""]) + [] == s + [""];
    StrippedUnfold(managed, Applied(managed, lines, p));
  }

  /** Applying `p` and then `q` is applying `q`: the last profile wins. */
  lemma LastProfileWins(managed: set<string>, lines: seq<string>, p: Profile, q: Profile)
    requires SoundProfile(managed, p)
    ensures Applied(managed, Applied(managed, lines, p), q) == Applied(managed, lines, q)
  {
    hide Stripped, Block, SoundProfile;
    StripUndoesApply(managed, lines, p);
  }

  // ---------------------------------------------------------------- what a file sets

  function SettingOn(line: string, key: string): seq<string> {
    if IsSetting(line) && KeyOf(line) == key then [ValueOf(line)] else []
  }

  /** The values the lines give to `key`, in order. */
  function SettingsFor(lines: seq<string>, key: string): seq<string> {
    if lines == [] then [] else SettingOn(lines[0], key) + SettingsFor(lines[1..], key)
  }

  lemma {:induction false} SettingsConcat(a: seq<string>, b: seq<string>, key: string)
    ensures SettingsFor(a + b, key) == SettingsFor(a, key) + SettingsFor(b, key)
  {
    hide SettingOn;
    if a == [] {
      assert a + b == b;
    } else {
      var here := SettingOn(a[0], key);
      assert here + (SettingsFor(a[1..], key) + SettingsFor(b, key))
          == (here + SettingsFor(a[1..], key)) + SettingsFor(b, key);
      SettingsConcat(a[1..], b, key);
      assert (a + b)[1..] == a[1..] + b;
    }
  }

  lemma {:induction false} NoSettings(lines: seq<string>, key: string)
    requires forall i :: 0 <= i < |lines| ==> !(IsSetting(lines[i]) && KeyOf(lines[i]) == key)
    ensures SettingsFor(lines, key) == []
  {
    hide IsSetting, KeyOf, ValueOf;
    if lines != [] { NoSettings(lines[1..], key); }
  }

  lemma BeforeEqualsStep(line: string)
    requires line != "" && line[0] != '='
    ensures var b := BeforeEquals(line); b != "" && b[0] == line[0] && b[1..] == BeforeEquals(line[1..])
  {
  }

  lemma EqualsIsInk()
    ensures !IsSpace('=')
  {
  }

  lemma {:induction false} CutBeforeStrip(line: string)
    requires '=' in line
    ensures '=' in LStrip(line) && BeforeEquals(LStrip(line)) == LStrip(BeforeEquals(line))
  {
    EqualsIsInk();
    hide IsSpace;
    if IsSpace(line[0]) {
      assert '=' in line[1..];
      CutBeforeStrip(line[1..]);
      BeforeEqualsStep(line);
    } else {
      assert LStrip(line) == line;
      if line[0] != '=' { BeforeEqualsStep(line); }
    }
  }

  lemma {:induction false} CutAfterRStrip(s: string)
    requires '=' in s
    ensures '=' in RStrip(s) && BeforeEquals(RStrip(s)) == BeforeEquals(s)
  {
    var key := BeforeEquals(s);
    assert !IsSpace('=');
    RStripKeepsInk(s, |key|);
    var r := RStrip(s);
    assert r[|key|] == s[..|key|+1][|key|] == '=';
    assert r == key + "=" + r[|key|+1..] by { assert r[..|key|+1] == s[..|key|+1]; }
    CutAtEquals(key, r[|key|+1..]);
  }

  lemma LStripTwice(s: string)
    ensures LStrip(LStrip(s)) == LStrip(s)
  {
  }

  /** A line and its stripped form name the same key. */
  lemma KeyOfStripped(line: string)
    requires '=' in line
    ensures KeyOf(Strip(line)) == KeyOf(line)
  {
    CutBeforeStrip(line);
    CutAfterRStrip(LStrip(line));
    StripIsTrimmed(BeforeEquals(line));
    LStripTwice(BeforeEquals(line));
  }

  lemma CommentEitherWay(line: string)
    ensures StartsWith(Strip(line), "#") <==> IsComment(line)
  {
    var l := LStrip(line);
    if IsComment(line) {
      assert l[0] == '#';
      RStripHash(l);
    }
    if StartsWith(Strip(line), "#") {
      assert Strip(line)[0] == '#' && RStrip(l) <= l;
    }
  }

  lemma BlankHasNoEquals(line: string)
    requires IsBlank(line)
    ensures '=' !in line
  {
    if '=' in line {
      CutBeforeStrip(line);
      CutAfterRStrip(LStrip(line));
    }
  }

  lemma HeaderIsComment(line: string)
    requires IsHeader(line)
    ensures StartsWith(Strip(line), "#")
  {
  }

  /** Lines a block takes with it set no foreign key. */
  lemma DroppedLineIsNotForeign(managed: set<string>, line: string, key: string)
    requires key !in managed
    requires IsHeader(line) || IsBlank(line) || BelongsToBlock(managed, line) || IsManagedSetting(managed, line)
    ensures !(IsSetting(line) && KeyOf(line) == key)
  {
    CommentEitherWay(line);
    if IsSetting(line) {
      KeyOfStripped(line);
      if IsBlank(line) { BlankHasNoEquals(line); }
    }
    if IsHeader(line) { HeaderIsComment(line); }
  }

  lemma {:induction false} KeptKeepsForeign(managed: set<string>, lines: seq<string>, skipping: bool, key: string)
    requires key !in managed
    ensures SettingsFor(Kept(managed, lines, skipping), key) == SettingsFor(lines, key)
  {
    hide IsHeader, IsBlank, BelongsToBlock, IsManagedSetting, IsSetting, KeyOf, ValueOf;
    if lines != [] {
      KeptKeepsForeign(managed, lines[1..], true, key);
      KeptKeepsForeign(managed, lines[1..], false, key);
      var line := lines[0];
      if IsHeader(line) || IsBlank(line) || BelongsToBlock(managed, line) || IsManagedSetting(managed, line) {
        DroppedLineIsNotForeign(managed, line, key);
      }
      var tail := Kept(managed, lines[1..], false);
      assert ([line] + tail)[1..] == tail;
    }
  }

  lemma BlankIsNoSetting(line: string)
    requires IsBlank(line)
    ensures !IsSetting(line)
  {
    BlankHasNoEquals(line);
  }

  lemma DroppingBlanksKeepsSettings(lines: seq<string>, key: string)
    ensures SettingsFor(DropTrailingBlanks(lines), key) == SettingsFor(lines, key)
  {
    hide IsBlank, IsSetting, KeyOf, ValueOf, DropTrailingBlanks, SettingsFor;
    DroppedIsPrefix(lines);
    var r := DropTrailingBlanks(lines);
    var tail := lines[|r|..];
    assert lines == r + tail;
    SettingsConcat(r, tail, key);
    forall i | 0 <= i < |tail| ensures !(IsSetting(tail[i]) && KeyOf(tail[i]) == key) {
      assert tail[i] == lines[|r| + i];
      BlankIsNoSetting(tail[i]);
    }
    NoSettings(tail, key);
  }

  /** Stripping loses no setting of a key the script does not manage, and every one it does. */
  lemma StrippedSettings(managed: set<string>, lines: seq<string>, key: string)
    ensures SettingsFor(Stripped(managed, lines), key) == if key in managed then [] else SettingsFor(lines, key)
  {
    hide IsHeader, IsBlank, IsSetting, KeyOf, ValueOf, Kept, DropTrailingBlanks, SettingsFor;
    if key in managed {
      StrippedIsClean(managed, lines);
      NoSettings(Stripped(managed, lines), key);
    } else {
      KeptKeepsForeign(managed, lines, false, key);
      DroppingBlanksKeepsSettings(Kept(managed, lines, false), key);
    }
  }

  lemma NoLines(values: seq<(string, string)>, key: string)
    requires values == []
    ensures SettingsFor(SettingLines(values), key) == []
  {
  }

  lemma WrittenSetting(name: string, value: string, key: string)
    requires PlainKey(name)
    ensures SettingOn(name + "=" + value, key) == if name == key then [value] else []
  {
    SettingLineReadsBack(name, value);
    hide IsSetting, KeyOf, ValueOf, PlainKey, Strip, IsHeader, IsBlank;
    assert '=' in name + "=" + value;
  }

  lemma FirstWritten(values: seq<(string, string)>, key: string)
    requires values != [] && PlainKey(values[0].0)
    ensures var rest := SettingsFor(SettingLines(values[1..]), key);
            SettingsFor(SettingLines(values), key) == if values[0].0 == key then [values[0].1] + rest else rest
  {
    hide SettingOn, PlainKey;
    WrittenSetting(values[0].0, values[0].1, key);
    var lines := SettingLines(values);
    assert lines[1..] == SettingLines(values[1..]);
    assert lines[0] == values[0].0 + "=" + values[0].1;
    assert SettingsFor(lines, key) == SettingOn(lines[0], key) + SettingsFor(lines[1..], key);
  }

  lemma {:induction false} WrittenSettings(values: seq<(string, string)>, key: string)
    requires forall i :: 0 <= i < |values| ==> PlainKey(values[i].0)
    requires forall i, j :: 0 <= i < j < |values| ==> values[i].0 != values[j].0
    ensures forall i :: 0 <= i < |values| && values[i].0 == key ==>
              SettingsFor(SettingLines(values), key) == [values[i].1]
    ensures (forall i :: 0 <= i < |values| ==> values[i].0 != key) ==> SettingsFor(SettingLines(values), key) == []
  {
    hide *;
    if values == [] {
      NoLines(values, key);
    } else {
      var rest := values[1..];
      assert forall i :: 0 <= i < |rest| ==> rest[i] == values[i+1];
      WrittenSettings(rest, key);
      FirstWritten(values, key);
      if values[0].0 == key {
        assert SettingsFor(SettingLines(values), key) == [values[0].1];
      } else if i :| 0 < i < |values| && values[i].0 == key {
        assert rest[i-1] == values[i];
        assert SettingsFor(SettingLines(values), key) == [values[i].1];
      }
    }
  }

  lemma BlockSettings(managed: set<string>, p: Profile, key: string)
    requires SoundProfile(managed, p)
    ensures SettingsFor(Block(p), key) == SettingsFor(SettingLines(p.values), key)
  {
    hide IsSetting, KeyOf, ValueOf, IsHeader, PlainKey, SettingsFor;
    var head := [""] + p.comments;
    assert Block(p) == head + SettingLines(p.values);
    SettingsConcat(head, SettingLines(p.values), key);
    forall i | 0 <= i < |head| ensures !(IsSetting(head[i]) && KeyOf(head[i]) == key) {
      if i > 0 {
        assert head[i] == p.comments[i-1];
        CommentBelongs(managed, head[i]);
      } else {
        BlankIsNoSetting("");
      }
    }
    NoSettings(head, key);
  }

  /** Of `key`, the updated lines set what `q` asks: a key of `q` exactly once, to `q`'s value; any
      other managed key nowhere; and every other key exactly as before. */
  ghost predicate SetsOnly(managed: set<string>, lines: seq<string>, q: Profile, updated: seq<string>, key: string) {
    && (forall i :: 0 <= i < |q.values| && q.values[i].0 == key ==> SettingsFor(updated, key) == [q.values[i].1])
    && ((key in managed && forall i :: 0 <= i < |q.values| ==> q.values[i].0 != key) ==>
        SettingsFor(updated, key) == [])
    && (key !in managed ==> SettingsFor(updated, key) == SettingsFor(lines, key))
  }

  /** Applying a profile sets its keys and no other managed key. */
  lemma AppliedSettings(managed: set<string>, lines: seq<string>, q: Profile, key: string)
    requires SoundProfile(managed, q)
    ensures SetsOnly(managed, lines, q, Applied(managed, lines, q), key)
  {
    hide IsHeader, PlainKey, Stripped, Block, SettingsFor;
    SettingsConcat(Stripped(managed, lines), Block(q), key);
    StrippedSettings(managed, lines, key);
    BlockSettings(managed, q, key);
    WrittenSettings(q.values, key);
    var none: seq<string> := [];
    assert forall v :: none + [v] == [v];
    assert SettingsFor(lines, key) + none == SettingsFor(lines, key);
  }

  // ---------------------------------------------------------------- which lines are kept

  lemma LeadingSpace(s: string) returns (w: string)
    ensures AllSpace(w) && s == w + LStrip(s)
  {
    hide AllSpace, LStrip;
    LStripDropsSpace(s);
    w := s[..|s| - |LStrip(s)|];
  }

  ghost predicate HeaderShape(line: string, v: string, w: string, rest: string) {
    AllSpace(v) && AllSpace(w) && Strip(line) == "#" + (v + ("===" + (w + ("Terminal Profile:" + rest))))
  }

  lemma HeaderParts(s: string, v: string, w: string, r: string, q: string)
    requires s != "" && s[0] == '#' && s[1..] == v + r && "===" <= r && r[3..] == w + q && "Terminal Profile:" <= q
    ensures s == "#" + (v + ("===" + (w + ("Terminal Profile:" + q[17..]))))
  {
    assert q == "Terminal Profile:" + q[17..];
    assert r == "===" + r[3..];
    assert s == "#" + s[1..];
  }

  lemma HeaderTaken(line: string) returns (v: string, w: string, rest: string)
    requires IsHeader(line)
    ensures HeaderShape(line, v, w, rest)
  {
    var s := Strip(line);
    var r := LStrip(s[1..]);
    var q := LStrip(r[3..]);
    v := LeadingSpace(s[1..]);
    w := LeadingSpace(r[3..]);
    rest := q[17..];
    hide LStrip, Strip, AllSpace, IsSpace, IsHeader;
    HeaderParts(s, v, w, r, q);
  }

  lemma HeaderRead(line: string, v: string, w: string, rest: string)
    requires HeaderShape(line, v, w, rest)
    ensures IsHeader(line)
  {
    var q := "Terminal Profile:" + rest;
    var r := "===" + (w + q);
    var s := Strip(line);
    assert s[0] == '#' && s[1..] == v + r;
    assert !IsSpace('=') && !IsSpace('T') && r[0] == '=' && q[0] == 'T';
    LStripSkips(v, r);
    LStripSkips(w, q);
    assert r[3..] == w + q && "===" <= r && "Terminal Profile:" <= q;
  }

  /** A header is `#`, white space, `===`, white space, `Terminal Profile:` and anything more. */
  lemma HeaderMeans(line: string)
    ensures IsHeader(line) <==> exists v, w, rest :: HeaderShape(line, v, w, rest)
  {
    hide IsHeader, HeaderShape;
    if IsHeader(line) { var v, w, rest := HeaderTaken(line); }
    if v, w, rest :| HeaderShape(line, v, w, rest) { HeaderRead(line, v, w, rest); }
  }

  /** The key of a line is what stands before the first `=`, or all of it, without the white space. */
  lemma KeyMeans(before: string, after: string)
    requires '=' !in before
    ensures KeyOf(before + "=" + after) == Strip(before) && KeyOf(before) == Strip(before)
  {
    hide Strip;
    CutAtEquals(before, after);
  }

  /** `before` stands before the first `=` of the line, `after` after it. */
  ghost predicate SetsKey(line: string, before: string, after: string) {
    line == before + "=" + after && '=' !in before
  }

  lemma FirstIs(s: string, c: char)
    ensures [c] <= s <==> s != "" && s[0] == c
  {
    if s != "" { assert s[..1] == [s[0]]; }
  }

  lemma CommentMeans(line: string)
    ensures IsComment(line) <==> LStrip(line) != "" && LStrip(line)[0] == '#'
  {
    hide LStrip;
    FirstIs(LStrip(line), '#');
  }

  /** A line sets a managed key when it is no comment and such a key stands before its first `=`. */
  lemma ManagedSettingMeans(managed: set<string>, line: string)
    ensures IsManagedSetting(managed, line) <==>
              && (exists before, after :: SetsKey(line, before, after) && Strip(before) in managed)
              && (LStrip(line) == "" || LStrip(line)[0] != '#')
  {
    CommentMeans(line);
    hide LStrip, Strip, IsComment;
    var b := BeforeEquals(line);
    if '=' in line {
      assert line == b + "=" + line[|b|+1..];
      assert SetsKey(line, b, line[|b|+1..]);
    }
    forall before, after | SetsKey(line, before, after)
      ensures '=' in line && KeyOf(line) == Strip(before)
    {
      KeyMeans(before, after);
      assert line[|before|] == '=';
    }
    hide KeyOf, BeforeEquals;
  }

  /** What a block consists of: headers, comments, and lines that name a managed key. */
  predicate Material(managed: set<string>, line: string) {
    IsHeader(line) || (Strip(line) != "" && (Strip(line)[0] == '#' || KeyOf(Strip(line)) in managed))
  }

  lemma MaterialMeans(managed: set<string>, line: string)
    ensures Material(managed, line) <==> IsHeader(line) || (!IsBlank(line) && BelongsToBlock(managed, line))
  {
    hide Strip, KeyOf, IsHeader;
    FirstIs(Strip(line), '#');
  }

  /** A header stands before `i`, and nothing but block material between it and `i`. */
  ghost predicate Following(managed: set<string>, lines: seq<string>, i: nat)
    requires i <= |lines|
  {
    exists h :: 0 <= h < i && IsHeader(lines[h]) && forall j :: h < j < i ==> Material(managed, lines[j])
  }

  /** The line at `i` stands in a block: it is a header, or it follows one through block material alone
      and is material itself or the blank line that ends the block. */
  ghost predicate InBlock(managed: set<string>, lines: seq<string>, i: nat)
    requires i < |lines|
  {
    IsHeader(lines[i])
    || (Following(managed, lines, i) && (Material(managed, lines[i]) || Strip(lines[i]) == ""))
  }

  /** The lines that stand in no block and set no managed key. */
  ghost function KeptPlaces(managed: set<string>, lines: seq<string>): set<nat> {
    set i | 0 <= i < |lines| && !InBlock(managed, lines, i) && !IsManagedSetting(managed, lines[i])
  }

  lemma FollowingStep(managed: set<string>, lines: seq<string>, i: nat)
    requires i < |lines|
    ensures Following(managed, lines, i + 1) <==>
              IsHeader(lines[i]) || (Following(managed, lines, i) && Material(managed, lines[i]))
  {
    hide IsHeader, Material;
  }

  lemma MaterialIsDropped(managed: set<string>, line: string)
    ensures IsBlank(line) ==> !IsManagedSetting(managed, line)
  {
    if IsBlank(line) { BlankIsNoSetting(line); }
  }

  lemma KeptStep(managed: set<string>, line: string, rest: seq<string>, skipping: bool)
    ensures var drops := IsHeader(line) || (skipping && (Material(managed, line) || IsBlank(line)));
            Kept(managed, [line] + rest, skipping)
            == (if drops || IsManagedSetting(managed, line) then [] else [line])
               + Kept(managed, rest, IsHeader(line) || (skipping && Material(managed, line)))
  {
    MaterialMeans(managed, line);
    assert ([line] + rest)[1..] == rest;
    MaterialIsDropped(managed, line);
    hide IsHeader, IsBlank, Material, BelongsToBlock, IsManagedSetting;
  }

  lemma NothingFollows(managed: set<string>, lines: seq<string>)
    ensures !Following(managed, lines, 0)
  {
  }

  lemma KeptOfNothing(managed: set<string>, skipping: bool)
    ensures Kept(managed, [], skipping) == []
  {
  }

  lemma PlaceMeans(managed: set<string>, lines: seq<string>, i: nat)
    requires i < |lines|
    ensures i in KeptPlaces(managed, lines) <==>
              !IsHeader(lines[i]) && !IsManagedSetting(managed, lines[i])
              && !(Following(managed, lines, i) && (Material(managed, lines[i]) || IsBlank(lines[i])))
  {
    hide IsHeader, Material, IsManagedSetting, Following;
  }

  /** On any file: what is kept, before trailing blank lines go, is exactly the lines that stand in no
      block and set no managed key, in order. */
  lemma KeptExactly(managed: set<string>, lines: seq<string>)
    ensures Selects(lines, KeptPlaces(managed, lines), Kept(managed, lines, false))
  {
    hide IsHeader, IsBlank, Material, BelongsToBlock, IsManagedSetting, Kept, Selects, Following, KeptPlaces;
    var out: seq<string>, skipping := [], false;
    var places := KeptPlaces(managed, lines);
    SelectsNothing<string>(places);
    assert lines[0..] == lines && lines[..0] == [];
    NothingFollows(managed, lines);
    for i := 0 to |lines|
      invariant out + Kept(managed, lines[i..], skipping) == Kept(managed, lines, false)
      invariant skipping <==> Following(managed, lines, i)
      invariant Selects(lines[..i], places, out)
    {
      var line, rest := lines[i], lines[i+1..];
      assert lines[i..] == [line] + rest && lines[..i+1] == lines[..i] + [line];
      KeptStep(managed, line, rest, skipping);
      FollowingStep(managed, lines, i);
      PlaceMeans(managed, lines, i);
      SelectsStep(lines[..i], places, out, line);
      var mine := if i in places then [line] else [];
      assert out + (mine + Kept(managed, rest, IsHeader(line) || (skipping && Material(managed, line))))
             == (out + mine) + Kept(managed, rest, IsHeader(line) || (skipping && Material(managed, line)));
      assert out + [] == out;
      out, skipping := out + mine, IsHeader(line) || (skipping && Material(managed, line));
    }
    assert lines[..|lines|] == lines && lines[|lines|..] == [];
    KeptOfNothing(managed, skipping);
    assert out + [] == out;
  }

  ghost predicate IsStripped(managed: set<string>, lines: seq<string>, kept: seq<string>, out: seq<string>) {
    && Selects(lines, KeptPlaces(managed, lines), kept)
    && out <= kept && (out != [] ==> !IsBlank(out[|out|-1]))
    && forall i :: |out| <= i < |kept| ==> IsBlank(kept[i])
  }

  /** The stripped file is those lines without the blank ones at the end. */
  lemma StrippedMeans(managed: set<string>, lines: seq<string>)
    ensures exists kept :: IsStripped(managed, lines, kept, Stripped(managed, lines))
  {
    hide IsBlank, Kept, Selects, KeptPlaces, DropTrailingBlanks;
    var kept := Kept(managed, lines, false);
    KeptExactly(managed, lines);
    DroppedIsPrefix(kept);
    assert IsStripped(managed, lines, kept, Stripped(managed, lines));
  }

  lemma {:induction false} MaterialVanishes(managed: set<string>, block: seq<string>, tail: seq<string>)
    requires forall i :: 0 <= i < |block| ==> Material(managed, block[i])
    ensures Kept(managed, block + tail, true) == Kept(managed, tail, true)
  {
    hide Material, IsHeader, IsBlank, IsManagedSetting, Kept;
    if block == [] {
      assert block + tail == tail;
    } else {
      assert block + tail == [block[0]] + (block[1..] + tail);
      KeptStep(managed, block[0], block[1..] + tail, true);
      MaterialVanishes(managed, block[1..], tail);
      assert [] + Kept(managed, tail, true) == Kept(managed, tail, true);
    }
  }

  lemma NotMaterial(managed: set<string>, x: string)
    requires !Material(managed, x)
    ensures !IsHeader(x) && !IsManagedSetting(managed, x) && (IsBlank(x) <==> Strip(x) == "")
  {
    MaterialMeans(managed, x);
    if IsManagedSetting(managed, x) {
      KeyOfStripped(x);
      if IsBlank(x) { BlankIsNoSetting(x); }
    }
  }

  /** A block reaches up to the first line that is no block material: if that is blank it goes with the
      block, otherwise it stays; and whatever comes after stays. */
  lemma BlockEnds(managed: set<string>, front: seq<string>, header: string, block: seq<string>, x: string,
                  rest: seq<string>)
    requires Clean(managed, front) && Clean(managed, rest) && IsHeader(header)
    requires (forall i :: 0 <= i < |block| ==> Material(managed, block[i])) && !Material(managed, x)
    ensures Stripped(managed, front + [header] + block + [x] + rest)
            == DropTrailingBlanks(front + (if Strip(x) == "" then rest else [x] + rest))
  {
    hide *;
    NotMaterial(managed, x);
    var tail := block + ([x] + rest);
    assert front + [header] + block + [x] + rest == front + [header] + tail;
    CleanThenHeader(managed, front, header, tail);
    MaterialVanishes(managed, block, [x] + rest);
    KeptStep(managed, x, rest, true);
    CleanIsKept(managed, rest);
    assert [] + rest == rest;
    StrippedUnfold(managed, front + [header] + tail);
  }

  // ---------------------------------------------------------------- the loops

  /** `_strip_profile_block`. */
  method StripProfileBlock(managed: set<string>, lines: seq<string>) returns (out: seq<string>)
    ensures out == Stripped(managed, lines)
    ensures exists kept :: IsStripped(managed, lines, kept, out)
  {
    hide IsHeader, IsBlank, IsSetting, KeyOf, IsStripped;
    StrippedMeans(managed, lines);
    out := [];
    var skipping := false;
    assert lines[0..] == lines;
    for i := 0 to |lines|
      invariant out + Kept(managed, lines[i..], skipping) == Kept(managed, lines, false)
    {
      var line := lines[i];
      assert lines[i..][0] == line && lines[i..][1..] == lines[i+1..];
      if IsHeader(line) {
        skipping := true;
        continue;
      }
      if skipping {
        if IsBlank(line) {
          skipping := false;
          continue;
        }
        if StartsWith(Strip(line), "#") { continue; }
        var key := KeyOf(Strip(line));
        if key in managed { continue; }
        skipping := false;
      }
      if IsSetting(line) {
        if KeyOf(line) in managed { continue; }
      }
      assert out + ([line] + Kept(managed, lines[i+1..], false)) == (out + [line]) + Kept(managed, lines[i+1..], false);
      out := out + [line];
    }
    assert out + [] == out;
    while out != [] && IsBlank(out[|out|-1])
      invariant DropTrailingBlanks(out) == Stripped(managed, lines)
    {
      out := out[..|out|-1];
    }
  }

  lemma BlockFollows(stripped: seq<string>, p: Profile)
    ensures IsFollowedBy(stripped, p, stripped + Block(p))
  {
    var all, values := stripped + Block(p), SettingLines(p.values);
    assert Block(p) == [""] + (p.comments + values);
    forall i | 0 <= i < |values| ensures all[|stripped| + 1 + |p.comments| + i] == values[i] { }
  }

  /** `apply_profile`, between reading the file's lines and writing them back. */
  method ApplyProfile(managed: set<string>, lines: seq<string>, p: Profile) returns (updated: seq<string>)
    ensures updated == Applied(managed, lines, p)
    ensures exists kept, stripped ::
              IsStripped(managed, lines, kept, stripped) && IsFollowedBy(stripped, p, updated)
  {
    hide Stripped, IsStripped, IsFollowedBy;
    BlockFollows(Stripped(managed, lines), p);
    var stripped := StripProfileBlock(managed, lines);
    var block := [""] + p.comments;
    for i := 0 to |p.values|
      invariant block == [""] + p.comments + SettingLines(p.values)[..i]
    {
      block := block + [p.values[i].0 + "=" + p.values[i].1];
    }
    assert SettingLines(p.values)[..|p.values|] == SettingLines(p.values);
    updated := stripped + block;
  }
}
