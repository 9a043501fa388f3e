/**
  The older tile, whose rules are judged at a cell without being told which
  tile asks. Its rule list and constructors are those of `Tiles.Tile`; only
  the shape of the rule predicate differs.
 */
module LegacyTiles {
  import Tiles

  /** The ground truth the early-exit check computes. */
  ghost predicate AllFulfilled<R>(rules: seq<R>, fulfilled: R -> bool) {
    forall i :: 0 <= i < |rules| ==> fulfilled(rules[i])
  }

  /**
    Checks the rules of `t` in order and answers false at the first one that
    is not fulfilled. `consulted` is how many rules were looked at.
   */
  method IsPossible<R>(t: Tiles.Tile<R>, fulfilled: R -> bool) returns (possible: bool, ghost consulted: nat)
    ensures possible <==> AllFulfilled(t.rules, fulfilled)
    ensures consulted <= |t.rules|
    ensures possible ==> consulted == |t.rules|
    ensures !possible ==> 0 < consulted && !fulfilled(t.rules[consulted - 1])
    ensures forall i :: 0 <= i < consulted - 1 ==> fulfilled(t.rules[i])
  {
    possible, consulted := Tiles.IsPossible(t, (r, _) => fulfilled(r));
  }

  /** A tile without rules may sit anywhere, whatever its rules would say. */
  lemma NoRulesPossibleEverywhere<R>(fulfilled: R -> bool)
    ensures AllFulfilled(Tiles.NoRules<R>().rules, fulfilled)
  {
  }
}
