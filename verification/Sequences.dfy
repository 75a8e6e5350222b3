/** Notions about sequences that every part of the model uses. */
module Sequences {

  ghost predicate Distinct<T>(s: seq<T>) {
    forall i, j :: 0 <= i < j < |s| ==> s[i] != s[j]
  }

  function Elements(s: seq<string>): set<string> {
    set x | x in s
  }

  // ---------------------------------------------------------------- selecting entries by place

  /** How many of the places lie before `i`. */
  ghost function Rank(places: set<nat>, i: nat): nat {
    |set p | p in places && p < i|
  }

  /** `out` holds exactly the entries of `s` at the given places, in order: the entry at a place stands
      behind as many others as there are places before it. */
  ghost predicate Selects<T>(s: seq<T>, places: set<nat>, out: seq<T>) {
    && |out| == Rank(places, |s|)
    && forall p :: p in places && p < |s| ==> Rank(places, p) < |out| && out[Rank(places, p)] == s[p]
  }

  lemma RankStep(places: set<nat>, i: nat)
    ensures Rank(places, i + 1) == Rank(places, i) + if i in places then 1 else 0
  {
    var before, upTo := set p | p in places && p < i, set p | p in places && p < i + 1;
    assert upTo == if i in places then before + {i} else before;
  }

  lemma NoRank(places: set<nat>)
    ensures Rank(places, 0) == 0
  {
    assert (set p | p in places && p < 0) == {};
  }

  lemma {:induction false} RankGrows(places: set<nat>, i: nat, j: nat)
    requires i <= j
    ensures Rank(places, i) <= Rank(places, j)
    ensures i < j && i in places ==> Rank(places, i) < Rank(places, j)
    decreases j - i
  {
    hide Rank;
    if i < j {
      RankStep(places, i);
      RankGrows(places, i + 1, j);
    }
  }

  lemma SelectsNothing<T>(places: set<nat>)
    ensures Selects<T>([], places, [])
  {
    NoRank(places);
  }

  /** One entry further. */
  lemma SelectsStep<T>(s: seq<T>, places: set<nat>, out: seq<T>, x: T)
    requires Selects(s, places, out)
    ensures Selects(s + [x], places, if |s| in places then out + [x] else out)
  {
    hide Rank;
    RankStep(places, |s|);
    forall p | p in places && p < |s| { RankGrows(places, p, |s|); }
  }

  /** Only the places inside the sequence matter. */
  lemma SelectsAgree<T>(s: seq<T>, a: set<nat>, b: set<nat>, out: seq<T>)
    requires Selects(s, a, out) && forall p :: 0 <= p < |s| ==> (p in a <==> p in b)
    ensures Selects(s, b, out)
  {
    forall i: nat | i <= |s| ensures Rank(a, i) == Rank(b, i) {
      assert (set p | p in a && p < i) == (set p | p in b && p < i);
    }
    hide Rank;
  }

  lemma {:induction false} RankOnto(places: set<nat>, n: nat, k: nat) returns (p: nat)
    requires k < Rank(places, n)
    ensures p in places && p < n && Rank(places, p) == k
  {
    hide Rank;
    NoRank(places);
    RankStep(places, n - 1);
    if k < Rank(places, n - 1) { p := RankOnto(places, n - 1, k); } else { p := n - 1; }
  }

  /** The places and the sequence determine what is selected. */
  lemma SelectionIsUnique<T>(s: seq<T>, places: set<nat>, a: seq<T>, b: seq<T>)
    requires Selects(s, places, a) && Selects(s, places, b)
    ensures a == b
  {
    hide Rank;
    forall k | 0 <= k < |a| ensures a[k] == b[k] {
      var p := RankOnto(places, |s|, k);
    }
  }
}
