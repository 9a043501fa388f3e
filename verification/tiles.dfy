/**
  A tile and the rules it carries. A tile may sit at a cell when every one of
  its rules is fulfilled there, checked in order, stopping at the first rule
  that fails. How a rule is judged at a cell is passed in as `fulfilled`,
  which receives the rule and the tile asking.
 */
module Tiles {

  datatype Tile<R> = Tile(rules: seq<R>)

  /** The ground truth the early-exit check computes. */
  ghost predicate AllFulfilled<R>(rules: seq<R>, t: Tile<R>, fulfilled: (R, Tile<R>) -> bool) {
    forall i :: 0 <= i < |rules| ==> fulfilled(rules[i], t)
  }

  /** A tile without rules. */
  function NoRules<R>(): Tile<R>
  {
    Tile([])
  }

  /** A tile without rules may sit anywhere, whatever its rules would say. */
  lemma NoRulesPossibleEverywhere<R>(fulfilled: (R, Tile<R>) -> bool)
    ensures AllFulfilled(NoRules<R>().rules, NoRules<R>(), fulfilled)
  {
  }

  /** A tile holding its own copy of `rules`, copied one by one. */
  method WithRules<R>(rules: seq<R>) returns (t: Tile<R>)
    ensures t.rules == rules
  {
    var copy: seq<R> := [];
    var i := 0;
    while i < |rules|
      invariant 0 <= i <= |rules|
      invariant copy == rules[..i]
    {
      copy := copy + [rules[i]];
      i := i + 1;
    }
    assert rules[..i] == rules;
    t := Tile(copy);
  }

  /**
    Checks the rules of `t` in order and answers false at the first one that
    is not fulfilled. `consulted` is how many rules were looked at.
   */
  method IsPossible<R>(t: Tile<R>, fulfilled: (R, Tile<R>) -> bool) returns (possible: bool, ghost consulted: nat)
    ensures possible <==> AllFulfilled(t.rules, t, fulfilled)
    ensures consulted <= |t.rules|
    ensures possible ==> consulted == |t.rules|
    ensures !possible ==> 0 < consulted && !fulfilled(t.rules[consulted - 1], t)
    ensures forall i :: 0 <= i < consulted - 1 ==> fulfilled(t.rules[i], t)
  {
    var i := 0;
    while i < |t.rules|
      invariant 0 <= i <= |t.rules|
      invariant forall j :: 0 <= j < i ==> fulfilled(t.rules[j], t)
    {
      if !fulfilled(t.rules[i], t) {
        return false, i + 1;
      }
      i := i + 1;
    }
    return true, i;
  }

  /** A rule added to a tile's list can take a cell away from the tile but never give one. */
  lemma AddedRuleOnlyNarrows<R>(rules: seq<R>, r: R, t: Tile<R>, fulfilled: (R, Tile<R>) -> bool)
    ensures AllFulfilled(rules + [r], t, fulfilled) <==> AllFulfilled(rules, t, fulfilled) && fulfilled(r, t)
  {
    if AllFulfilled(rules, t, fulfilled) && fulfilled(r, t) {
      var all := rules + [r];
      forall i | 0 <= i < |all|
        ensures fulfilled(all[i], t)
      {
        if i < |rules| {
          assert all[i] == rules[i];
        }
      }
    }
    if AllFulfilled(rules + [r], t, fulfilled) {
      var all := rules + [r];
      assert all[|rules|] == r;
      forall i | 0 <= i < |rules|
        ensures fulfilled(rules[i], t)
      {
        assert all[i] == rules[i];
      }
    }
  }
}
