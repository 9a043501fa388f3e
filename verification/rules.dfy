/**
  Rule verdicts, the kinds of counting rule, and the symmetry transforms that
  map one rule to another when a tileset is rotated or mirrored.
 */
module Rules {

  /** What a rule says about placing a tile at a cell. */
  datatype State =
    | Forced      // the tile must be placed here
    | Possible    // no constraint from this rule right now
    | Impossible  // the tile cannot be placed here
    | Forbidden   // the grid cannot be completed any more

  /** The counting rules: a fixed amount of a tile per row, per column, or per block. */
  datatype Rule =
    | PerRow(amount: int)
    | PerColumn(amount: int)
    | PerBlock(amount: int, blockWidth: int, blockHeight: int)

  datatype Transform = Rotate | MirrorX | MirrorY

  /** A rotation swaps rows and columns; blocks keep their shape. */
  function RotateRule(r: Rule): Rule {
    match r
    case PerRow(a) => PerColumn(a)
    case PerColumn(a) => PerRow(a)
    case PerBlock(a, w, h) => PerBlock(a, w, h)
  }

  /** Mirroring keeps every counting rule as it is. */
  function MirrorXRule(r: Rule): Rule {
    match r
    case PerRow(a) => PerRow(a)
    case PerColumn(a) => PerColumn(a)
    case PerBlock(a, w, h) => PerBlock(a, w, h)
  }

  function MirrorYRule(r: Rule): Rule {
    match r
    case PerRow(a) => PerRow(a)
    case PerColumn(a) => PerColumn(a)
    case PerBlock(a, w, h) => PerBlock(a, w, h)
  }

  function TransformRule(t: Transform, r: Rule): Rule {
    match t
    case Rotate => RotateRule(r)
    case MirrorX => MirrorXRule(r)
    case MirrorY => MirrorYRule(r)
  }

  /** Applies the transforms of `ts` in order, the first one first. */
  function ApplyAll(ts: seq<Transform>, r: Rule): Rule
    decreases |ts|
  {
    if |ts| == 0 then r else ApplyAll(ts[1..], TransformRule(ts[0], r))
  }

  /** Number of rotations in `ts`. */
  function Rotations(ts: seq<Transform>): nat
    decreases |ts|
  {
    if |ts| == 0 then 0 else (if ts[0] == Rotate then 1 else 0) + Rotations(ts[1..])
  }

  /**
    The transforms a rule inherits when it does not override them: each hands
    back the rule itself, whatever kind of rule it is.
   */
  function DefaultTransform<R>(t: Transform, r: R): R {
    match t
    case Rotate => r
    case MirrorX => r
    case MirrorY => r
  }

  function ApplyAllDefault<R>(ts: seq<Transform>, r: R): R
    decreases |ts|
  {
    if |ts| == 0 then r else ApplyAllDefault(ts[1..], DefaultTransform(ts[0], r))
  }

  /** Any chain of inherited transforms leaves the rule unchanged. */
  lemma {:induction false} DefaultTransformsAreIdentity<R>(ts: seq<Transform>, r: R)
    ensures ApplyAllDefault(ts, r) == r
    decreases |ts|
  {
    if |ts| > 0 {
      assert DefaultTransform(ts[0], r) == r;
      DefaultTransformsAreIdentity(ts[1..], r);
    }
  }

  /** No transform changes the amount a rule asks for. */
  lemma {:induction false} TransformsKeepAmount(ts: seq<Transform>, r: Rule)
    ensures ApplyAll(ts, r).amount == r.amount
    decreases |ts|
  {
    if |ts| > 0 {
      TransformsKeepAmount(ts[1..], TransformRule(ts[0], r));
    }
  }

  /**
    A row rule under any chain of transforms is a row rule after an even
    number of rotations and a column rule after an odd number, with the
    same amount.
   */
  lemma {:induction false} RowTransforms(ts: seq<Transform>, a: int)
    ensures ApplyAll(ts, PerRow(a)) == if Rotations(ts) % 2 == 0 then PerRow(a) else PerColumn(a)
    decreases |ts|, 1
  {
    if |ts| > 0 {
      if ts[0] == Rotate {
        ColumnTransforms(ts[1..], a);
      } else {
        RowTransforms(ts[1..], a);
      }
    }
  }

  /** The column counterpart of `RowTransforms`. */
  lemma {:induction false} ColumnTransforms(ts: seq<Transform>, a: int)
    ensures ApplyAll(ts, PerColumn(a)) == if Rotations(ts) % 2 == 0 then PerColumn(a) else PerRow(a)
    decreases |ts|, 1
  {
    if |ts| > 0 {
      if ts[0] == Rotate {
        RowTransforms(ts[1..], a);
      } else {
        ColumnTransforms(ts[1..], a);
      }
    }
  }

  /** A block rule is unchanged by any chain of transforms. */
  lemma {:induction false} BlockTransforms(ts: seq<Transform>, a: int, w: int, h: int)
    ensures ApplyAll(ts, PerBlock(a, w, h)) == PerBlock(a, w, h)
    decreases |ts|
  {
    if |ts| > 0 {
      BlockTransforms(ts[1..], a, w, h);
    }
  }
}
