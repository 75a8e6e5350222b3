/** The four profile tables the script ships, and the proof that they satisfy what the rewriting
    theorems ask of a profile. */
module ProfileTables {
  import opened Text
  import opened EnvProfile

  /** The keys of the four tables, in the order every table keeps to. */
  const NAMES: seq<string> := [
    "BUTLER_ENV_PROFILE",
    "BUTLER_ENABLE_TERMINAL",
    "BUTLER_TERMINAL_PROFILE",
    "BUTLER_TERMINAL_SANDBOX",
    "BUTLER_TERMINAL_SANDBOX_FAIL_UNAVAILABLE",
    "BUTLER_TERMINAL_SANDBOX_NETWORK_ALLOWLIST",
    "BUTLER_CC_BRIDGE",
    "BUTLER_TERMINAL_ALLOWLIST_EXTRA",
    "BUTLER_MEMORY_WRITE_APPROVAL",
    "BUTLER_SKILL_WRITE_APPROVAL",
    "BUTLER_TOOLSET",
    "BUTLER_TRANSCRIPT_FTS",
    "BUTLER_MEMORY_OBSERVER_QUEUE",
    "BUTLER_MEMORY_OBSERVATION_RECALL",
    "BUTLER_MEMORY_UNIFIED_RECALL"
  ]

  const ENV_PROFILE := 0
  const ENABLE_TERMINAL := 1
  const TERMINAL_PROFILE := 2
  const TERMINAL_SANDBOX := 3
  const TERMINAL_SANDBOX_FAIL_UNAVAILABLE := 4
  const TERMINAL_SANDBOX_NETWORK_ALLOWLIST := 5
  const CC_BRIDGE := 6
  const TERMINAL_ALLOWLIST_EXTRA := 7
  const MEMORY_WRITE_APPROVAL := 8
  const SKILL_WRITE_APPROVAL := 9
  const TOOLSET := 10
  const TRANSCRIPT_FTS := 11
  const MEMORY_OBSERVER_QUEUE := 12
  const MEMORY_OBSERVATION_RECALL := 13
  const MEMORY_UNIFIED_RECALL := 14

  /** Places in `NAMES`, going upwards. */
  predicate Ascends(entries: seq<(nat, string)>) {
    && (forall i :: 0 <= i < |entries| ==> entries[i].0 < |NAMES|)
    && (forall i :: 1 <= i < |entries| ==> entries[i-1].0 < entries[i].0)
  }

  /** The one check every table passes: its places go upwards. */
  type Entries = entries: seq<(nat, string)> | Ascends(entries) witness []

  /** A table of the script: its keys by place, its values, the name in its title line, its notes. */
  datatype Table = Table(entries: Entries, title: string, notes: seq<string>)

  const TITLE := "# === Terminal Profile:"
  const RULE := "==="

  function Named(entries: Entries): seq<(string, string)> {
    seq(|entries|, i requires 0 <= i < |entries| => (NAMES[entries[i].0], entries[i].1))
  }

  function CommentLines(title: string, notes: seq<string>): seq<string> {
    [TITLE + (title + RULE)] + seq(|notes|, i requires 0 <= i < |notes| => "# " + notes[i])
  }

  function Filled(t: Table): Profile {
    Profile(Named(t.entries), CommentLines(t.title, t.notes))
  }

  const LEAD := Table(
    [
      (ENV_PROFILE, "lead"),
      (ENABLE_TERMINAL, "0"),
      (TERMINAL_SANDBOX, "0"),
      (TERMINAL_SANDBOX_FAIL_UNAVAILABLE, "0"),
      (MEMORY_WRITE_APPROVAL, "owner_scopes"),
      (SKILL_WRITE_APPROVAL, "1"),
      (TOOLSET, "wechat_minimal"),
      (TRANSCRIPT_FTS, "1"),
      (MEMORY_OBSERVER_QUEUE, "1"),
      (MEMORY_OBSERVATION_RECALL, "1"),
      (MEMORY_UNIFIED_RECALL, "1")
    ],
    " lead（微信生产 Lead，推荐）",
    [
      "terminal 关；测试走 delegate dev / runtime readonly job；无需 bubblewrap",
      "P3-H：observation + hybrid 统一召回（需 BUTLER_SEMANTIC_MEMORY=1 效果更佳）"
    ])

  const DEV_GATEWAY := Table(
    [
      (ENV_PROFILE, "dev-gateway"),
      (ENABLE_TERMINAL, "1"),
      (TERMINAL_PROFILE, "dev"),
      (TERMINAL_SANDBOX, "1"),
      (TERMINAL_SANDBOX_FAIL_UNAVAILABLE, "1")
    ],
    " dev-gateway（Linux dev 网关）",
    [
      "需: sudo apt install bubblewrap · 无 bwrap 时 terminal 硬失败"
    ])

  const DEV_LOCAL := Table(
    [
      (ENV_PROFILE, "dev-local"),
      (ENABLE_TERMINAL, "1"),
      (TERMINAL_PROFILE, "dev"),
      (TERMINAL_SANDBOX, "0"),
      (TERMINAL_SANDBOX_FAIL_UNAVAILABLE, "0"),
      (MEMORY_WRITE_APPROVAL, "0"),
      (SKILL_WRITE_APPROVAL, "0"),
      (TOOLSET, "full"),
      (TRANSCRIPT_FTS, "1")
    ],
    " dev-local（本机开发）",
    [
      "无 bwrap 时 honest 关 OS 沙箱；装 bwrap 后改 dev-gateway 或 dev-remote"
    ])

  const DEV_REMOTE := Table(
    [
      (ENV_PROFILE, "dev-remote"),
      (ENABLE_TERMINAL, "1"),
      (TERMINAL_PROFILE, "dev"),
      (TERMINAL_SANDBOX, "1"),
      (TERMINAL_SANDBOX_FAIL_UNAVAILABLE, "1"),
      (TERMINAL_SANDBOX_NETWORK_ALLOWLIST, "1"),
      (CC_BRIDGE, "1"),
      (TERMINAL_ALLOWLIST_EXTRA, "claude"),
      (MEMORY_WRITE_APPROVAL, "owner_scopes"),
      (SKILL_WRITE_APPROVAL, "1"),
      (TOOLSET, "full"),
      (TRANSCRIPT_FTS, "1")
    ],
    " dev-remote（微信远程开发 / CC 互补）",
    [
      "需 bubblewrap；CC 桥接 BUTLER_CC_BRIDGE=1；networkPolicy.allow + NETWORK_ALLOWLIST"
    ])

  const TABLES: map<string, Table> :=
    map["lead" := LEAD, "dev-gateway" := DEV_GATEWAY, "dev-local" := DEV_LOCAL, "dev-remote" := DEV_REMOTE]

  const PROFILES: map<string, Profile> := map name | name in TABLES :: Filled(TABLES[name])
  const MANAGED_KEYS: set<string> := set name, kv | name in PROFILES && kv in PROFILES[name].values :: kv.0

  lemma OneSpace(x: string)
    requires x != "" && !IsSpace(x[0])
    ensures LStrip(" " + x) == x
  {
    assert (" " + x)[1..] == x && IsSpace(' ');
    assert LStrip(x) == x;
  }

  lemma HeaderFrom(line: string, a: string, b: string)
    requires line == "#" + (" " + a) && a == "===" + (" " + b) && StartsWith(b, "Terminal Profile:")
    requires b != "" && !IsSpace(b[0]) && !IsSpace(line[|line|-1])
    ensures IsHeader(line)
  {
    assert !IsSpace('#') && !IsSpace('=');
    assert line[0] == '#' && a[0] == '=';
    StripOfTrimmed(line);
    hide IsSpace, Strip, LStrip;
    OneSpace(a);
    OneSpace(b);
    assert line[1..] == " " + a && a[3..] == " " + b;
  }

  lemma Regroup(p: string, q: string, r: string, t: string, u: string, name: string)
    ensures (p + (q + (r + (t + u)))) + name == p + (q + (r + (t + (u + name))))
  {
    assert (t + u) + name == t + (u + name);
    assert (r + (t + u)) + name == r + ((t + u) + name);
    assert (q + (r + (t + u))) + name == q + ((r + (t + u)) + name);
  }

  lemma TitleParts()
    ensures "# === Terminal Profile:" == "#" + (" " + ("===" + (" " + "Terminal Profile:")))
  {
  }

  /** A title line opens a profile block. */
  lemma TitleIsHeader(title: string)
    ensures IsHeader(TITLE + (title + RULE))
  {
    var rest := title + RULE;
    var b := "Terminal Profile:" + rest;
    TitleParts();
    Regroup("#", " ", "===", " ", "Terminal Profile:", rest);
    assert b[0] == 'T' && !IsSpace('T') && !IsSpace('=') && "Terminal Profile:" <= b;
    assert (TITLE + rest)[|TITLE + rest|-1] == rest[|rest|-1] == RULE[2] == '=';
    HeaderFrom(TITLE + rest, "===" + (" " + b), b);
  }

  lemma PlainName(key: string)
    requires |key| > 0 && key[0] == 'B' && !IsSpace(key[|key|-1]) && '=' !in key
    ensures PlainKey(key)
  {
  }

  lemma NamesArePlain()
    ensures forall i :: 0 <= i < |NAMES| ==> PlainKey(NAMES[i])
  {
    PlainName("BUTLER_ENV_PROFILE");
    PlainName("BUTLER_ENABLE_TERMINAL");
    PlainName("BUTLER_TERMINAL_PROFILE");
    PlainName("BUTLER_TERMINAL_SANDBOX");
    PlainName("BUTLER_TERMINAL_SANDBOX_FAIL_UNAVAILABLE");
    PlainName("BUTLER_TERMINAL_SANDBOX_NETWORK_ALLOWLIST");
    PlainName("BUTLER_CC_BRIDGE");
    PlainName("BUTLER_TERMINAL_ALLOWLIST_EXTRA");
    PlainName("BUTLER_MEMORY_WRITE_APPROVAL");
    PlainName("BUTLER_SKILL_WRITE_APPROVAL");
    PlainName("BUTLER_TOOLSET");
    PlainName("BUTLER_TRANSCRIPT_FTS");
    PlainName("BUTLER_MEMORY_OBSERVER_QUEUE");
    PlainName("BUTLER_MEMORY_OBSERVATION_RECALL");
    PlainName("BUTLER_MEMORY_UNIFIED_RECALL");
    hide PlainKey, IsSpace;
  }

  lemma NamesDiffer()
    ensures forall i, j :: 0 <= i < j < |NAMES| ==> NAMES[i] != NAMES[j]
  {
  }

  lemma {:induction false} AscendsThroughout(entries: Entries, i: nat, j: nat)
    requires i < j < |entries|
    ensures entries[i].0 < entries[j].0
  {
    if i + 1 < j { AscendsThroughout(entries, i, j - 1); }
  }

  /** However a table is filled in, its keys are plain names and none occurs twice. */
  lemma NamedIsSound(entries: Entries)
    ensures forall i :: 0 <= i < |Named(entries)| ==> PlainKey(Named(entries)[i].0)
    ensures forall i, j :: 0 <= i < j < |Named(entries)| ==> Named(entries)[i].0 != Named(entries)[j].0
  {
    NamesArePlain();
    NamesDiffer();
    hide PlainKey;
    forall i, j | 0 <= i < j < |entries| ensures Named(entries)[i].0 != Named(entries)[j].0 {
      AscendsThroughout(entries, i, j);
    }
  }

  lemma StartsWithHash(start: string, rest: string)
    requires start != "" && start[0] == '#'
    ensures StartsWith(start + rest, "#")
  {
    assert (start + rest)[..1] == "#";
  }

  lemma CommentsAreSound(title: string, notes: seq<string>)
    ensures var c := CommentLines(title, notes);
            c != [] && IsHeader(c[0]) && forall i :: 0 <= i < |c| ==> StartsWith(c[i], "#")
  {
    TitleIsHeader(title);
    hide IsHeader, StartsWith;
    StartsWithHash(TITLE, title + RULE);
    forall i | 0 <= i < |notes| ensures StartsWith("# " + notes[i], "#") { StartsWithHash("# ", notes[i]); }
  }

  lemma SoundIntro(managed: set<string>, p: Profile)
    requires p.comments != [] && IsHeader(p.comments[0])
    requires forall i :: 0 <= i < |p.comments| ==> StartsWith(p.comments[i], "#")
    requires forall kv :: kv in p.values ==> kv.0 in managed
    requires forall i :: 0 <= i < |p.values| ==> PlainKey(p.values[i].0)
    requires forall i, j :: 0 <= i < j < |p.values| ==> p.values[i].0 != p.values[j].0
    ensures SoundProfile(managed, p)
  {
    hide PlainKey, IsHeader, StartsWith;
  }

  /** A table that passes the check is sound wherever its keys are managed. */
  lemma CheckedIsSound(managed: set<string>, t: Table)
    requires forall kv :: kv in Filled(t).values ==> kv.0 in managed
    ensures SoundProfile(managed, Filled(t))
  {
    NamedIsSound(t.entries);
    CommentsAreSound(t.title, t.notes);
    hide PlainKey, IsHeader, StartsWith, Named, CommentLines, Ascends;
    SoundIntro(managed, Filled(t));
  }

  lemma ShippedKeysAreManaged(name: string)
    requires name in PROFILES
    ensures name in TABLES && PROFILES[name] == Filled(TABLES[name])
    ensures forall kv :: kv in PROFILES[name].values ==> kv.0 in MANAGED_KEYS
  {
    hide Filled;
  }

  /** The four shipped profiles are sound, so for them the last one applied wins. */
  lemma ShippedProfilesAreSound(name: string)
    requires name in PROFILES
    ensures SoundProfile(MANAGED_KEYS, PROFILES[name])
  {
    ShippedKeysAreManaged(name);
    hide *;
    CheckedIsSound(MANAGED_KEYS, TABLES[name]);
  }

  /** Of two shipped profiles applied in turn only the second is left: each of its keys is set once,
      to its value, every other managed key nowhere, and all other keys as in the original file. */
  lemma ShippedLastWins(lines: seq<string>, first: string, second: string, key: string)
    requires first in PROFILES && second in PROFILES
    ensures var twice := Applied(MANAGED_KEYS, Applied(MANAGED_KEYS, lines, PROFILES[first]), PROFILES[second]);
            && twice == Applied(MANAGED_KEYS, lines, PROFILES[second])
            && SetsOnly(MANAGED_KEYS, lines, PROFILES[second], twice, key)
  {
    hide *;
    ShippedProfilesAreSound(first);
    ShippedProfilesAreSound(second);
    LastProfileWins(MANAGED_KEYS, lines, PROFILES[first], PROFILES[second]);
    AppliedSettings(MANAGED_KEYS, lines, PROFILES[second], key);
  }
}
