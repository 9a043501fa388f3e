/**
  The possibility mask of a single grid cell (a "superposition" of tiles).

  A cell keeps one flag per tile of the shared tileset, so the length of the
  mask is always the length of the tileset, plus a cached count of possible
  tiles. The cached count is a separate field: the operations below update it
  the way the cell does, and `Consistent` says when it agrees with the mask.
 */
module Cells {

  datatype Superposition = Superposition(x: int, y: int, mask: seq<bool>, count: int)

  /** Number of `true` flags in `m`, counted over prefixes so that loops can track it. */
  function CountTrue(m: seq<bool>): (n: nat)
    ensures n <= |m|
  {
    if |m| == 0 then 0 else CountTrue(m[..|m| - 1]) + (if m[|m| - 1] then 1 else 0)
  }

  /** The cached count agrees with the mask. */
  predicate Consistent(s: Superposition) {
    s.count == CountTrue(s.mask)
  }

  /** `i` is the one and only possible tile of `m`. */
  predicate SingleTrue(m: seq<bool>, i: int) {
    0 <= i < |m| && m[i] && forall j :: 0 <= j < |m| && m[j] ==> j == i
  }

  /** `i` is the `k`-th (0-based) possible tile of `m`. */
  predicate IsNthTrue(m: seq<bool>, i: int, k: int) {
    0 <= i < |m| && m[i] && CountTrue(m[..i]) == k
  }

  /** A cell over a tileset of `n` tiles where every tile is still possible. */
  function Fresh(x: int, y: int, n: nat): (s: Superposition)
    ensures |s.mask| == n && s.x == x && s.y == y
    ensures forall i :: 0 <= i < n ==> s.mask[i]
    ensures s.count == n
    ensures Consistent(s)
  {
    var m := seq(n, i => true);
    AllTrueCount(m);
    Superposition(x, y, m, n)
  }

  /**
    A cell over a tileset of `n` tiles starting from the given flags; flags of
    the wrong length are ignored and every tile is possible instead. The count
    is set to the tileset size whatever the flags say.
   */
  function FromPossibilities(x: int, y: int, n: nat, possibilities: seq<bool>): (s: Superposition)
    ensures |s.mask| == n && s.x == x && s.y == y
    ensures |possibilities| == n ==> s.mask == possibilities
    ensures |possibilities| != n ==> forall i :: 0 <= i < n ==> s.mask[i]
    ensures s.count == n
  {
    if |possibilities| == n then Superposition(x, y, possibilities, n)
    else Superposition(x, y, seq(n, i => true), n)
  }

  /** Copy of a cell, built through `FromPossibilities` with its own mask. */
  function Clone(s: Superposition): (c: Superposition)
    ensures c.x == s.x && c.y == s.y && c.mask == s.mask
    ensures c.count == |s.mask|
  {
    FromPossibilities(s.x, s.y, |s.mask|, s.mask)
  }

  /** The constructor with given flags, counting the flags it keeps. */
  function FromPossibilitiesCounted(x: int, y: int, n: nat, possibilities: seq<bool>): (s: Superposition)
    ensures |s.mask| == n && s.x == x && s.y == y
    ensures |possibilities| == n ==> s.mask == possibilities
    ensures |possibilities| != n ==> forall i :: 0 <= i < n ==> s.mask[i]
    ensures Consistent(s)
  {
    if |possibilities| == n then Superposition(x, y, possibilities, CountTrue(possibilities))
    else Fresh(x, y, n)
  }

  /** Copy of a cell that keeps the count in step with the copied mask. */
  function CloneCounted(s: Superposition): (c: Superposition)
    ensures c.x == s.x && c.y == s.y && c.mask == s.mask
    ensures Consistent(c)
    ensures Consistent(s) ==> c == s
  {
    FromPossibilitiesCounted(s.x, s.y, |s.mask|, s.mask)
  }

  /** A copy of a narrowed cell no longer agrees with its own count. */
  lemma CloneLosesCount()
    ensures var s := Superposition(0, 0, [true, false], 1);
            Consistent(s) && !Consistent(Clone(s)) && !IsCollapsed(Clone(s))
  {
    var s := Superposition(0, 0, [true, false], 1);
    assert s.mask[..1] == [true];
    assert [true][..0] == [];
    assert CountTrue(s.mask) == 1;
  }

  function PossibilityCount(s: Superposition): int {
    s.count
  }

  predicate IsCollapsed(s: Superposition) {
    PossibilityCount(s) == 1
  }

  /** Whether tile number `t` is still possible in the cell. */
  predicate TilePossible(s: Superposition, t: int) {
    0 <= t < |s.mask| && s.mask[t]
  }

  /**
    Removes every still-possible tile that the tile-verdict predicate `keep`
    rejects; `changed` reports whether any tile was removed.
   */
  method CollapsePossibilities(s: Superposition, keep: nat -> bool) returns (r: Superposition, changed: bool)
    ensures r.x == s.x && r.y == s.y && |r.mask| == |s.mask|
    ensures forall i :: 0 <= i < |s.mask| ==> r.mask[i] == (s.mask[i] && keep(i))
    ensures changed <==> exists i :: 0 <= i < |s.mask| && s.mask[i] && !keep(i)
    ensures changed <==> CountTrue(r.mask) < CountTrue(s.mask)
    ensures r.count == s.count - (CountTrue(s.mask) - CountTrue(r.mask))
    ensures Consistent(s) ==> Consistent(r)
  {
    var m := s.mask;
    var count := s.count;
    changed := false;
    var i := 0;
    while i < |m|
      invariant 0 <= i <= |m| == |s.mask|
      invariant forall j :: 0 <= j < i ==> m[j] == (s.mask[j] && keep(j))
      invariant forall j :: i <= j < |m| ==> m[j] == s.mask[j]
      invariant CountTrue(m[..i]) <= CountTrue(s.mask[..i])
      invariant changed <==> exists j :: 0 <= j < i && s.mask[j] && !keep(j)
      invariant changed <==> CountTrue(m[..i]) < CountTrue(s.mask[..i])
      invariant count == s.count - (CountTrue(s.mask[..i]) - CountTrue(m[..i]))
    {
      var before := m;
      if m[i] && !keep(i) {
        m := m[i := false];
        changed := true;
        count := count - 1;
      }
      assert m[..i] == before[..i];
      assert m[..i + 1][..i] == m[..i];
      assert s.mask[..i + 1][..i] == s.mask[..i];
      i := i + 1;
    }
    assert m[..i] == m;
    assert s.mask[..i] == s.mask;
    r := Superposition(s.x, s.y, m, count);
  }

  /**
    Keeps only the `k`-th still-possible tile (0-based); when `k` is negative
    or not below the number of possible tiles, no tile is kept.
   */
  method CollapseTo(s: Superposition, k: int) returns (r: Superposition)
    ensures r.x == s.x && r.y == s.y && |r.mask| == |s.mask|
    ensures forall i :: 0 <= i < |s.mask| ==> r.mask[i] == IsNthTrue(s.mask, i, k)
    ensures Consistent(r)
    ensures r.count == if 0 <= k < CountTrue(s.mask) then 1 else 0
    ensures 0 <= k < CountTrue(s.mask) ==>
              IsCollapsed(r) && exists i :: SingleTrue(r.mask, i) && IsNthTrue(s.mask, i, k)
  {
    var m := s.mask;
    var seen := 0;
    var count := 0;
    var i := 0;
    while i < |m|
      invariant 0 <= i <= |m| == |s.mask|
      invariant forall j :: 0 <= j < i ==> m[j] == IsNthTrue(s.mask, j, k)
      invariant forall j :: i <= j < |m| ==> m[j] == s.mask[j]
      invariant seen == CountTrue(s.mask[..i])
      invariant count == CountTrue(m[..i])
      invariant count == if 0 <= k < seen then 1 else 0
    {
      var before := m;
      assert s.mask[..i + 1][..i] == s.mask[..i];
      if m[i] {
        if seen != k {
          m := m[i := false];
        } else {
          count := count + 1;
        }
        seen := seen + 1;
      }
      assert m[..i] == before[..i];
      assert m[..i + 1][..i] == m[..i];
      i := i + 1;
    }
    assert m[..i] == m;
    assert s.mask[..i] == s.mask;
    r := Superposition(s.x, s.y, m, count);
    if 0 <= k < CountTrue(s.mask) {
      CountOneIsSingle(m);
      var j :| SingleTrue(m, j);
      assert IsNthTrue(s.mask, j, k);
    }
  }

  /** For a consistent cell, being collapsed means exactly one tile is possible. */
  lemma CollapsedIffSingleTile(s: Superposition)
    requires Consistent(s)
    ensures IsCollapsed(s) <==> exists i :: SingleTrue(s.mask, i)
  {
    CountOneIsSingle(s.mask);
  }

  lemma {:induction false} AllTrueCount(m: seq<bool>)
    requires forall i :: 0 <= i < |m| ==> m[i]
    ensures CountTrue(m) == |m|
  {
    if |m| > 0 {
      AllTrueCount(m[..|m| - 1]);
    }
  }

  lemma {:induction false} CountZeroIsEmpty(m: seq<bool>)
    ensures CountTrue(m) == 0 <==> forall i :: 0 <= i < |m| ==> !m[i]
  {
    if |m| > 0 {
      var p := m[..|m| - 1];
      CountZeroIsEmpty(p);
      assert forall i :: 0 <= i < |p| ==> p[i] == m[i];
    }
  }

  lemma {:induction false} CountOneIsSingle(m: seq<bool>)
    ensures CountTrue(m) == 1 <==> exists i :: SingleTrue(m, i)
  {
    if |m| > 0 {
      var n := |m| - 1;
      var p := m[..n];
      CountOneIsSingle(p);
      CountZeroIsEmpty(p);
      assert forall i :: 0 <= i < |p| ==> p[i] == m[i];
      if CountTrue(m) == 1 {
        if m[n] {
          assert SingleTrue(m, n);
        } else {
          var i :| SingleTrue(p, i);
          assert SingleTrue(m, i);
        }
      }
      if i :| SingleTrue(m, i) {
        if i == n {
          assert CountTrue(p) == 0;
        } else {
          assert SingleTrue(p, i);
        }
      }
    }
  }
}
