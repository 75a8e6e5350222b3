/** The few string operations the modelled code relies on. */
module Text {

  /** Python's `str.isspace` for one character. */
  predicate IsSpace(c: char) {
    || '\U{0009}' <= c <= '\U{000D}' || '\U{001C}' <= c <= '\U{0020}' || c == '\U{0085}' || c == '\U{00A0}'
    || c == '\U{1680}' || '\U{2000}' <= c <= '\U{200A}' || c == '\U{2028}' || c == '\U{2029}'
    || c == '\U{202F}' || c == '\U{205F}' || c == '\U{3000}'
  }

  function LStrip(s: string): (r: string)
    ensures r == [] || !IsSpace(r[0])
    ensures |r| <= |s| && r == s[|s| - |r|..]
  {
    if s == [] || !IsSpace(s[0]) then s else LStrip(s[1..])
  }

  function RStrip(s: string): (r: string)
    ensures r == [] || !IsSpace(r[|r|-1])
    ensures r <= s
  {
    if s == [] || !IsSpace(s[|s|-1]) then s else RStrip(s[..|s|-1])
  }

  function Strip(s: string): string {
    RStrip(LStrip(s))
  }

  predicate StartsWith(s: string, prefix: string) {
    prefix <= s
  }

  /** ASCII lower-casing. */
  function Lower(s: string): (r: string)
    ensures |r| == |s|
    ensures forall i :: 0 <= i < |s| && 'A' <= s[i] <= 'Z' ==> r[i] as int == s[i] as int + ('a' as int - 'A' as int)
    ensures forall i :: 0 <= i < |s| && !('A' <= s[i] <= 'Z') ==> r[i] == s[i]
  {
    seq(|s|, i requires 0 <= i < |s| => if 'A' <= s[i] <= 'Z' then (s[i] as int + 32) as char else s[i])
  }

  /** A string without white space at either end. */
  predicate Trimmed(s: string) {
    s == [] || (!IsSpace(s[0]) && !IsSpace(s[|s|-1]))
  }

  lemma StripIsTrimmed(s: string)
    ensures Trimmed(Strip(s))
  {
    var l := LStrip(s);
    var r := Strip(s);
    if r != [] { assert r[0] == l[0]; }
  }

  lemma StripOfTrimmed(s: string)
    requires Trimmed(s)
    ensures Strip(s) == s && LStrip(s) == s
  {
  }

  ghost predicate AllSpace(w: string) {
    forall i :: 0 <= i < |w| ==> IsSpace(w[i])
  }

  lemma MoreSpace(c: char, w: string)
    requires IsSpace(c) && AllSpace(w)
    ensures AllSpace([c] + w) && AllSpace(w + [c])
  {
    hide IsSpace;
  }

  lemma NoSpace()
    ensures AllSpace("")
  {
  }

  lemma PrefixUnfold(s: string, n: nat)
    requires 0 < n <= |s|
    ensures s[..n] == [s[0]] + s[1..][..n-1]
  {
  }

  lemma {:induction false} LStripDropsSpace(s: string)
    ensures AllSpace(s[..|s| - |LStrip(s)|])
  {
    hide IsSpace, AllSpace;
    if s == "" || !IsSpace(s[0]) {
      NoSpace();
      assert s[..0] == "";
    } else {
      LStripDropsSpace(s[1..]);
      var n := |s| - |LStrip(s)|;
      MoreSpace(s[0], s[1..][..n-1]);
      PrefixUnfold(s, n);
    }
  }

  lemma {:induction false} RStripDropsSpace(s: string)
    ensures AllSpace(s[|RStrip(s)|..])
  {
    hide IsSpace, AllSpace;
    if s == "" || !IsSpace(s[|s|-1]) {
      NoSpace();
      assert s[|s|..] == "";
    } else {
      RStripDropsSpace(s[..|s|-1]);
      var n := |RStrip(s)|;
      MoreSpace(s[|s|-1], s[..|s|-1][n..]);
      assert s[n..] == s[..|s|-1][n..] + [s[|s|-1]];
    }
  }

  lemma {:induction false} LStripSkips(w: string, x: string)
    requires AllSpace(w) && x != "" && !IsSpace(x[0])
    ensures LStrip(w + x) == x
  {
    hide IsSpace;
    if w == "" {
      assert w + x == x;
    } else {
      LStripSkips(w[1..], x);
      assert (w + x)[1..] == w[1..] + x;
    }
  }

  lemma ThreeParts(s: string, l: string, r: string)
    requires |l| <= |s| && l == s[|s| - |l|..] && r <= l
    ensures s == s[..|s| - |l|] + r + l[|r|..]
  {
    assert s == s[..|s| - |l|] + l;
    assert l == r + l[|r|..];
  }

  lemma StripUnfold(s: string)
    ensures Strip(s) == RStrip(LStrip(s))
  {
  }

  /** Stripping takes off white space, on both sides, and all of it. */
  lemma StripMeans(s: string) returns (a: string, b: string)
    ensures Trimmed(Strip(s))
    ensures s == a + Strip(s) + b && AllSpace(a) && AllSpace(b)
  {
    hide *;
    StripIsTrimmed(s);
    StripUnfold(s);
    LStripDropsSpace(s);
    RStripDropsSpace(LStrip(s));
    var l, r := LStrip(s), Strip(s);
    a, b := s[..|s| - |l|], l[|r|..];
    ThreeParts(s, l, r);
  }
}
