/** Count mode of `matchTemplatesOpenCV`: repeatedly take the score maximum,
    count it, and erase the matched template's footprint from the score grid
    so the same on-screen instance cannot be counted again (non-maximum
    suppression). The three script variants differ in how they count and
    erase; `Policy` names the difference. */
module Suppression {
  import opened ScoreGrid

  /** How a variant erases the footprint of a match at `maxLoc`. */
  datatype Mask =
      /** `result.roi(new cv.Rect(x, y, cols, rows)).setTo(0)`: zeroes columns
          `[x, x + cols)` and rows `[y, y + rows)`; OpenCV refuses (throws)
          a rectangle that does not lie inside the grid. */
    | RoiSetTo
      /** `cv.rectangle(result, (x, y), (x + cols, y + rows), 0, -1)`: a filled
          rectangle whose two corners are both painted, clipped to the grid,
          so it never throws. */
    | FilledRect

  /** `strict`: a maximum counts only when it is strictly above the
      threshold; one exactly at the threshold is erased without counting. */
  datatype Policy = Policy(mask: Mask, strict: bool)

  /** find.cjs and index.cjs: `roi().setTo` and `maxVal > threshold`. */
  const RoiStrict := Policy(RoiSetTo, true)

  /** index.mjs: filled `cv.rectangle` and every maximum counted. */
  const RectAll := Policy(FilledRect, false)

  datatype CountOutcome =
      /** The loop stopped at a maximum below the threshold after erasing
          the matches at `picks`, in order, of which `total` counted. */
    | Counted(total: nat, picks: seq<Loc>)
      /** `roi` threw for the footprint of the match at `at`. */
    | RoiOutOfRange(at: Loc)
      /** Erasing left the grid unchanged while its maximum still reached the
          threshold: every later iteration repeats this one, forever. */
    | Hangs

  /** Whether the footprint of a `cols` by `rows` template at `p` can be
      taken as a region of interest of `g`. */
  predicate RoiFits(g: Grid, p: Loc, cols: nat, rows: nat)
    requires |g| > 0
  {
    p.x + cols <= Cols(g) && p.y + rows <= |g|
  }

  /** Whether the cell `(x, y)` lies in the footprint that `mask` erases for
      a match at `p`. */
  predicate InFootprint(mask: Mask, p: Loc, cols: nat, rows: nat, x: nat, y: nat) {
    match mask
    case RoiSetTo => p.x <= x < p.x + cols && p.y <= y < p.y + rows
    case FilledRect => p.x <= x <= p.x + cols && p.y <= y <= p.y + rows
  }

  /** The grid after erasing the footprint of a match at `p`. */
  function Erase(g: Grid, p: Loc, cols: nat, rows: nat, mask: Mask): (g': Grid)
    requires WellFormed(g)
    ensures WellFormed(g') && |g'| == |g| && Cols(g') == Cols(g)
    ensures forall y, x :: 0 <= y < |g| && 0 <= x < |g[y]| ==>
              g'[y][x] == (if InFootprint(mask, p, cols, rows, x, y) then 0.0 else g[y][x])
    ensures ZeroedFrom(g, g')
  {
    ZeroRectZeroes(g, p.x, p.y, p.x + cols, p.y + rows);
    ZeroRectZeroes(g, p.x, p.y, p.x + cols + 1, p.y + rows + 1);
    match mask
    case RoiSetTo => ZeroRect(g, p.x, p.y, p.x + cols, p.y + rows)
    case FilledRect => ZeroRect(g, p.x, p.y, p.x + cols + 1, p.y + rows + 1)
  }

  /** Whether a maximum `m` that reached threshold `t` is counted. */
  predicate Counts(m: real, t: real, strict: bool) {
    if strict then m > t else m >= t
  }

  /** The suppression loop `while (true) { minMaxLoc; if (maxVal < t) break; ... }`.
      It needs no fuel: each iteration that changes the grid zeroes at least
      one non-zero score, and one that does not change it repeats forever. */
  function CountLoop(g: Grid, t: real, cols: nat, rows: nat, pol: Policy): (r: CountOutcome)
    requires WellFormed(g)
    ensures r.Counted? ==> r.total <= |r.picks| <= NonZero(g)
    ensures MaxVal(g) < t <==> r == Counted(0, [])
    ensures r.Counted? && |r.picks| > 0 ==> r.picks[0] == GridMax(g)
    decreases NonZero(g)
  {
    var p := GridMax(g);
    var m := At(g, p);
    if m < t then Counted(0, [])
    else if pol.mask == RoiSetTo && !RoiFits(g, p, cols, rows) then RoiOutOfRange(p)
    else
      var g' := Erase(g, p, cols, rows, pol.mask);
      if g' == g then Hangs
      else
        ZeroedDecreases(g, g');
        match CountLoop(g', t, cols, rows, pol)
        case Counted(n, ps) => Counted(n + (if Counts(m, t, pol.strict) then 1 else 0), [p] + ps)
        case other => other
  }

  /** Whether the footprint always covers the matched cell itself. */
  predicate CoversMatch(cols: nat, rows: nat, mask: Mask) {
    mask == FilledRect || (cols > 0 && rows > 0)
  }

  /** With a positive threshold and a footprint that covers the match, the
      loop ends: it returns a count or throws, but never hangs. */
  lemma {:induction false} CountLoopTerminates(g: Grid, t: real, cols: nat, rows: nat, pol: Policy)
    requires WellFormed(g)
    requires t > 0.0
    requires CoversMatch(cols, rows, pol.mask)
    ensures !CountLoop(g, t, cols, rows, pol).Hangs?
    decreases NonZero(g)
  {
    var p := GridMax(g);
    var m := At(g, p);
    if m >= t && !(pol.mask == RoiSetTo && !RoiFits(g, p, cols, rows)) {
      var g' := Erase(g, p, cols, rows, pol.mask);
      assert g'[p.y][p.x] == 0.0;
      assert g' != g;
      ZeroedDecreases(g, g');
      CountLoopTerminates(g', t, cols, rows, pol);
    }
  }

  /** With a threshold of zero or below, a grid whose maximum reaches it
      never yields a count: erased cells read 0, which still reaches the
      threshold, so the loop hangs or throws. */
  lemma {:induction false} NonPositiveThresholdNeverCounts(g: Grid, t: real, cols: nat, rows: nat, pol: Policy)
    requires WellFormed(g)
    requires t <= 0.0
    requires MaxVal(g) >= t
    ensures !CountLoop(g, t, cols, rows, pol).Counted?
    decreases NonZero(g)
  {
    var p := GridMax(g);
    if !(pol.mask == RoiSetTo && !RoiFits(g, p, cols, rows)) {
      var g' := Erase(g, p, cols, rows, pol.mask);
      if g' != g {
        ZeroedDecreases(g, g');
        var q := GridMax(g');
        assert g'[p.y][p.x] <= g'[q.y][q.x];
        if InFootprint(pol.mask, p, cols, rows, p.x, p.y) {
          assert g'[p.y][p.x] == 0.0;
        } else {
          assert g'[p.y][p.x] == g[p.y][p.x];
        }
        NonPositiveThresholdNeverCounts(g', t, cols, rows, pol);
      }
    }
  }

  /** The number of picks whose original score counts under the policy. */
  function CountedPicks(g: Grid, ps: seq<Loc>, t: real, strict: bool): nat
    requires forall i :: 0 <= i < |ps| ==> InGrid(g, ps[i])
  {
    if |ps| == 0 then 0
    else (if Counts(At(g, ps[0]), t, strict) then 1 else 0) + CountedPicks(g, ps[1..], t, strict)
  }

  lemma {:induction false} CountedPicksAgree(g: Grid, h: Grid, ps: seq<Loc>, t: real, strict: bool)
    requires forall i :: 0 <= i < |ps| ==> InGrid(g, ps[i]) && InGrid(h, ps[i]) && At(g, ps[i]) == At(h, ps[i])
    ensures CountedPicks(g, ps, t, strict) == CountedPicks(h, ps, t, strict)
    decreases |ps|
  {
    if |ps| > 0 {
      CountedPicksAgree(g, h, ps[1..], t, strict);
    }
  }

  /** Cells that still reach a positive threshold after erasing a footprint
      that covers `p` kept their score and are not `p`. */
  lemma ErasedSurvivors(g: Grid, p: Loc, cols: nat, rows: nat, mask: Mask, t: real, ps: seq<Loc>)
    requires WellFormed(g) && InGrid(g, p)
    requires InFootprint(mask, p, cols, rows, p.x, p.y)
    requires t > 0.0
    requires forall i :: 0 <= i < |ps| ==>
      InGrid(Erase(g, p, cols, rows, mask), ps[i]) && At(Erase(g, p, cols, rows, mask), ps[i]) >= t
    ensures forall i :: 0 <= i < |ps| ==>
      InGrid(g, ps[i]) && At(g, ps[i]) == At(Erase(g, p, cols, rows, mask), ps[i]) && ps[i] != p
  {
    var g' := Erase(g, p, cols, rows, mask);
    forall i | 0 <= i < |ps|
      ensures InGrid(g, ps[i]) && At(g, ps[i]) == At(g', ps[i]) && ps[i] != p
    {
      var q := ps[i];
      assert g'[q.y][q.x] >= t;
    }
  }

  /** One round of the loop that erases a match and goes on. */
  lemma CountLoopUnfold(g: Grid, t: real, cols: nat, rows: nat, pol: Policy)
    requires WellFormed(g)
    requires MaxVal(g) >= t
    requires !(pol.mask == RoiSetTo && !RoiFits(g, GridMax(g), cols, rows))
    requires Erase(g, GridMax(g), cols, rows, pol.mask) != g
    ensures CountLoop(g, t, cols, rows, pol)
      == Prepend(if Counts(MaxVal(g), t, pol.strict) then 1 else 0, [GridMax(g)],
                 CountLoop(Erase(g, GridMax(g), cols, rows, pol.mask), t, cols, rows, pol))
  {
  }

  /** The picks are distinct cells of `g` whose scores in `g` reach `t`. */
  ghost predicate PicksSound(g: Grid, ps: seq<Loc>, t: real) {
    && (forall i :: 0 <= i < |ps| ==> InGrid(g, ps[i]) && At(g, ps[i]) >= t)
    && (forall i, j :: 0 <= i < j < |ps| ==> ps[i] != ps[j])
  }

  /** Putting the first match in front of the later ones keeps them sound. */
  lemma PicksSoundCons(g: Grid, p: Loc, ps: seq<Loc>, t: real)
    requires InGrid(g, p) && At(g, p) >= t
    requires PicksSound(g, ps, t)
    requires forall i :: 0 <= i < |ps| ==> ps[i] != p
    ensures PicksSound(g, [p] + ps, t)
  {
    var qs := [p] + ps;
    forall i, j | 0 <= i < j < |qs|
      ensures qs[i] != qs[j]
    {
      assert qs[j] == ps[j - 1];
    }
  }

  /** With a positive threshold and a footprint that covers the match, a
      round that reaches the threshold erases the matched cell. */
  lemma EraseStep(g: Grid, t: real, cols: nat, rows: nat, pol: Policy)
    requires WellFormed(g)
    requires t > 0.0
    requires CoversMatch(cols, rows, pol.mask)
    requires MaxVal(g) >= t
    ensures InFootprint(pol.mask, GridMax(g), cols, rows, GridMax(g).x, GridMax(g).y)
    ensures Erase(g, GridMax(g), cols, rows, pol.mask) != g
  {
    var p := GridMax(g);
    var g' := Erase(g, p, cols, rows, pol.mask);
    assert InFootprint(pol.mask, p, cols, rows, p.x, p.y);
    assert g'[p.y][p.x] == 0.0;
  }

  /** With a positive threshold the erased matches are distinct cells whose
      ORIGINAL scores reach the threshold, and the total is exactly the number
      of them that the policy counts (strictly above the threshold for
      find.cjs and index.cjs, all of them for index.mjs). */
  lemma {:induction false} CountLoopPicks(g: Grid, t: real, cols: nat, rows: nat, pol: Policy)
    requires WellFormed(g)
    requires t > 0.0
    requires CoversMatch(cols, rows, pol.mask)
    requires CountLoop(g, t, cols, rows, pol).Counted?
    ensures PicksSound(g, CountLoop(g, t, cols, rows, pol).picks, t)
    ensures CountLoop(g, t, cols, rows, pol).total
         == CountedPicks(g, CountLoop(g, t, cols, rows, pol).picks, t, pol.strict)
    decreases NonZero(g)
  {
    if MaxVal(g) >= t {
      var p := GridMax(g);
      EraseStep(g, t, cols, rows, pol);
      var g' := Erase(g, p, cols, rows, pol.mask);
      ZeroedDecreases(g, g');
      CountLoopUnfold(g, t, cols, rows, pol);
      var r' := CountLoop(g', t, cols, rows, pol);
      CountLoopPicks(g', t, cols, rows, pol);
      ErasedSurvivors(g, p, cols, rows, pol.mask, t, r'.picks);
      PicksSoundCons(g, p, r'.picks, t);
      CountedPicksAgree(g, g', r'.picks, t, pol.strict);
      assert ([p] + r'.picks)[1..] == r'.picks;
    }
  }

  /** `r` with the first `n` counts and the picks `ps` of earlier iterations
      put in front. */
  function Prepend(n: nat, ps: seq<Loc>, r: CountOutcome): CountOutcome {
    match r
    case Counted(m, qs) => Counted(n + m, ps + qs)
    case other => other
  }

  lemma PrependNothing(r: CountOutcome)
    ensures Prepend(0, [], r) == r
  {
    if r.Counted? {
      assert [] + r.picks == r.picks;
    }
  }

  /** Prepending one round after the earlier ones. */
  lemma PrependTwice(a: CountOutcome, b: CountOutcome, x: CountOutcome, total: nat, picks: seq<Loc>, c: nat, p: Loc)
    requires a == Prepend(total, picks, b)
    requires b == Prepend(c, [p], x)
    ensures a == Prepend(total + c, picks + [p], x)
  {
    if x.Counted? {
      assert picks + ([p] + x.picks) == (picks + [p]) + x.picks;
    }
  }

  /** What one round of the loop does: stop with an outcome, or go on with
      the erased grid and the number the round adds to the total. */
  datatype RoundResult = Stop(outcome: CountOutcome) | Continue(next: Grid, counted: nat)

  /** One round at the maximum `p` that `cv.minMaxLoc` reports. */
  function RunRound(g: Grid, p: Loc, t: real, cols: nat, rows: nat, pol: Policy): (r: RoundResult)
    requires WellFormed(g) && p == GridMax(g)
    ensures r.Stop? ==> CountLoop(g, t, cols, rows, pol) == r.outcome
    ensures r.Continue? ==> WellFormed(r.next) && NonZero(r.next) < NonZero(g)
    ensures r.Continue? ==> CountLoop(g, t, cols, rows, pol) == Prepend(r.counted, [p], CountLoop(r.next, t, cols, rows, pol))
  {
    var m := At(g, p);
    if m < t then Stop(Counted(0, []))
    else if pol.mask == RoiSetTo && !RoiFits(g, p, cols, rows) then Stop(RoiOutOfRange(p))
    else
      var g' := Erase(g, p, cols, rows, pol.mask);
      if g' == g then Stop(Hangs)
      else
        ZeroedDecreases(g, g');
        CountLoopUnfold(g, t, cols, rows, pol);
        Continue(g', if Counts(m, t, pol.strict) then 1 else 0)
  }

  /** The suppression loop as the scripts run it: an in-place working grid,
      `cv.minMaxLoc` on each round, and a running total. */
  method CountMatches(g0: Grid, t: real, cols: nat, rows: nat, pol: Policy) returns (r: CountOutcome)
    requires WellFormed(g0)
    ensures r == CountLoop(g0, t, cols, rows, pol)
  {
    var g := g0;
    var total := 0;
    var picks := [];
    PrependNothing(CountLoop(g0, t, cols, rows, pol));
    while true
      invariant WellFormed(g)
      invariant CountLoop(g0, t, cols, rows, pol) == Prepend(total, picks, CountLoop(g, t, cols, rows, pol))
      decreases NonZero(g)
    {
      var maxVal, maxLoc := MinMaxLoc(g);
      match RunRound(g, maxLoc, t, cols, rows, pol)
      case Stop(o) =>
        return Prepend(total, picks, o);
      case Continue(g', c) =>
        PrependTwice(CountLoop(g0, t, cols, rows, pol), CountLoop(g, t, cols, rows, pol),
                     CountLoop(g', t, cols, rows, pol), total, picks, c, maxLoc);
        total := total + c;
        picks := picks + [maxLoc];
        g := g';
    }
  }
}
