/**
  The search loop: propagate on the current grid, stop on success, otherwise
  branch on a random choice, and backtrack through a history stack of
  ancestor grids when a grid contradicts itself or has no choice left.

  The grid operations the loop calls are left open as oracles over an
  abstract grid type `G` and random source `Rng`:
  - `collapse` propagates on a grid, answering whether it met a
    contradiction together with the narrowed grid;
  - `isFinished` says whether a grid is complete;
  - `makeRandomChoice` branches from a grid, answering the new grid (or none
    when no untried choice is left), the source grid with that choice
    recorded, and the advanced random source.
 */
module Search {

  datatype Option<T> = None | Some(value: T)

  datatype Oracles<!G, !Rng> = Oracles(
    collapse: G -> (bool, G),
    isFinished: G -> bool,
    makeRandomChoice: (G, Rng) -> (Option<G>, G, Rng))

  /** The loop's state: the current grid, the ancestors (most recent last), the random source. */
  datatype Handler<G, Rng> = Handler(current: G, history: seq<G>, random: Rng)

  /** One pass of the outer loop either goes round again or returns. */
  datatype Pass<G, Rng> = Continue(next: Handler<G, Rng>) | Return(success: bool)

  datatype Outcome<G, Rng> = Finished(success: bool) | OutOfFuel(last: Handler<G, Rng>)

  function Top<G>(history: seq<G>): G
    requires |history| > 0
  {
    history[|history| - 1]
  }

  function Pop<G>(history: seq<G>): seq<G>
    requires |history| > 0
  {
    history[..|history| - 1]
  }

  /** `next` came from a successful choice on `source`: its new grid is the branch and its top is the source. */
  ghost predicate ChoiceFrom<G, Rng(!new)>(o: Oracles<G, Rng>, source: G, next: Handler<G, Rng>) {
    |next.history| > 0 &&
    exists random :: o.makeRandomChoice(source, random) == (Some(next.current), Top(next.history), next.random)
  }

  /** The grid `g` was asked for a choice and had none left. */
  ghost predicate Exhausted<G, Rng(!new)>(o: Oracles<G, Rng>, g: G) {
    exists random :: o.makeRandomChoice(g, random).0 == None
  }

  /**
    The inner loop: asks `current` for a choice and, while none is left, pops
    the most recent ancestor and asks it, returning false once the history is
    empty. On a choice, the grid it came from is pushed and the branch becomes
    current.
   */
  function ChooseOrBacktrack<G, Rng(!new)>(o: Oracles<G, Rng>, current: G, history: seq<G>, random: Rng): (r: Pass<G, Rng>)
    ensures r.Return? ==> !r.success
    ensures r.Return? ==> o.makeRandomChoice(current, random).0 == None
    ensures r.Return? ==> forall i :: 0 <= i < |history| ==> Exhausted(o, history[i])
    ensures r.Continue? ==> 0 < |r.next.history| <= |history| + 1 && Pop(r.next.history) == history[..|r.next.history| - 1]
    ensures r.Continue? ==>
              var k := |r.next.history| - 1;
              ChoiceFrom(o, if k == |history| then current else history[k], r.next)
    ensures r.Continue? ==>
              var k := |r.next.history| - 1;
              k < |history| ==>
                o.makeRandomChoice(current, random).0 == None &&
                forall i :: k < i < |history| ==> Exhausted(o, history[i])
    decreases |history|
  {
    var (choice, source, random') := o.makeRandomChoice(current, random);
    match choice
    case Some(branch) => Continue(Handler(branch, history + [source], random'))
    case None =>
      if |history| == 0 then Return(false)
      else ChooseOrBacktrack(o, Top(history), Pop(history), random')
  }

  /**
    One pass of the outer loop: propagate on the current grid; on a
    contradiction pop the most recent ancestor (or return false when there is
    none), otherwise return true if the grid is finished; then choose or
    backtrack.
   */
  function Step<G, Rng(!new)>(o: Oracles<G, Rng>, h: Handler<G, Rng>): (r: Pass<G, Rng>)
  {
    var (contradiction, grid) := o.collapse(h.current);
    if contradiction then
      if |h.history| == 0 then Return(false)
      else ChooseOrBacktrack(o, Top(h.history), Pop(h.history), h.random)
    else if o.isFinished(grid) then Return(true)
    else ChooseOrBacktrack(o, grid, h.history, h.random)
  }

  /** Runs at most `fuel` passes of the outer loop. */
  function Run<G, Rng(!new)>(o: Oracles<G, Rng>, h: Handler<G, Rng>, fuel: nat): Outcome<G, Rng>
    decreases fuel
  {
    if fuel == 0 then OutOfFuel(h)
    else match Step(o, h)
      case Return(success) => Finished(success)
      case Continue(next) => Run(o, next, fuel - 1)
  }

  /** The state after `n` passes that all went round again, if they did. */
  function Iterate<G, Rng(!new)>(o: Oracles<G, Rng>, h: Handler<G, Rng>, n: nat): Option<Handler<G, Rng>>
    decreases n
  {
    if n == 0 then Some(h)
    else match Step(o, h)
      case Return(_) => None
      case Continue(next) => Iterate(o, next, n - 1)
  }

  /** A pass returns true exactly when propagation met no contradiction and the grid is finished. */
  lemma StepSucceeds<G, Rng(!new)>(o: Oracles<G, Rng>, h: Handler<G, Rng>)
    ensures Step(o, h) == Return(true) <==> !o.collapse(h.current).0 && o.isFinished(o.collapse(h.current).1)
  {
  }

  /**
    A pass returns false exactly when propagation met a contradiction with an
    empty history, or when every grid asked for a choice had none left: after
    a clean propagation that is the unfinished propagated grid and then each
    ancestor on the stack, after a contradiction each ancestor.
   */
  lemma StepFails<G, Rng(!new)>(o: Oracles<G, Rng>, h: Handler<G, Rng>)
    ensures o.collapse(h.current).0 && |h.history| == 0 ==> Step(o, h) == Return(false)
    ensures Step(o, h) == Return(false) ==>
              (o.collapse(h.current).0 && |h.history| == 0) ||
              forall i :: 0 <= i < |h.history| ==> Exhausted(o, h.history[i])
    ensures Step(o, h) == Return(false) && !o.collapse(h.current).0 ==>
              !o.isFinished(o.collapse(h.current).1) &&
              o.makeRandomChoice(o.collapse(h.current).1, h.random).0 == None &&
              forall i :: 0 <= i < |h.history| ==> Exhausted(o, h.history[i])
  {
    var (contradiction, grid) := o.collapse(h.current);
    if contradiction && |h.history| > 0 {
      var r := ChooseOrBacktrack(o, Top(h.history), Pop(h.history), h.random);
      if r == Return(false) {
        var n := |h.history| - 1;
        assert Exhausted(o, h.history[n]) by {
          assert o.makeRandomChoice(h.history[n], h.random).0 == None;
        }
        forall i | 0 <= i < |h.history|
          ensures Exhausted(o, h.history[i])
        {
          if i < n {
            assert h.history[i] == Pop(h.history)[i];
          }
        }
      }
    }
  }

  /**
    After a contradiction the contradicted grid is dropped: the pass pops at
    least once and the history never grows. The popped ancestor goes straight
    to the choice, without propagating again.
   */
  lemma StepOnContradiction<G, Rng(!new)>(o: Oracles<G, Rng>, h: Handler<G, Rng>)
    requires o.collapse(h.current).0 && |h.history| > 0
    ensures Step(o, h) == ChooseOrBacktrack(o, Top(h.history), Pop(h.history), h.random)
    ensures Step(o, h).Continue? ==>
              var next := Step(o, h).next;
              |next.history| <= |h.history| &&
              Pop(next.history) == h.history[..|next.history| - 1] &&
              ChoiceFrom(o, h.history[|next.history| - 1], next)
  {
    var r := ChooseOrBacktrack(o, Top(h.history), Pop(h.history), h.random);
    if r.Continue? {
      var k := |r.next.history| - 1;
      if k < |h.history| - 1 {
        assert Pop(h.history)[k] == h.history[k];
      }
      assert Pop(h.history)[..k] == h.history[..k];
    }
  }

  /**
    A pass that goes round again pushes exactly one grid after popping some
    ancestors: the new history is a prefix of the old one plus the grid the
    successful choice came from, which is the propagated current grid when
    nothing was popped.
   */
  lemma StepHistory<G, Rng(!new)>(o: Oracles<G, Rng>, h: Handler<G, Rng>)
    requires Step(o, h).Continue?
    ensures var next := Step(o, h).next;
            var k := |next.history| - 1;
            0 <= k <= |h.history| &&
            Pop(next.history) == h.history[..k] &&
            ChoiceFrom(o, if k == |h.history| then o.collapse(h.current).1 else h.history[k], next)
  {
    var (contradiction, grid) := o.collapse(h.current);
    if contradiction {
      StepOnContradiction(o, h);
    }
  }

  /** A run reports success only from a pass whose propagation was clean on a finished grid. */
  lemma {:induction false} RunSucceedsOnlyWhenFinished<G, Rng(!new)>(o: Oracles<G, Rng>, h: Handler<G, Rng>, fuel: nat)
    requires Run(o, h, fuel) == Finished(true)
    ensures exists n: nat, last: Handler<G, Rng> ::
              n < fuel && Iterate(o, h, n) == Some(last) &&
              !o.collapse(last.current).0 && o.isFinished(o.collapse(last.current).1)
    decreases fuel
  {
    var r := Step(o, h);
    if r.Return? {
      StepSucceeds(o, h);
      assert Iterate(o, h, 0) == Some(h);
    } else {
      RunSucceedsOnlyWhenFinished(o, r.next, fuel - 1);
      var n: nat, last :| n < fuel - 1 && Iterate(o, r.next, n) == Some(last) &&
                          !o.collapse(last.current).0 && o.isFinished(o.collapse(last.current).1);
      assert Iterate(o, h, n + 1) == Some(last);
    }
  }
}
