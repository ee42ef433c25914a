/** Resolution scaling in components/find.cjs: the target window is found by
    title, its height is compared with the 1080-pixel height the templates
    were captured at, and every template is resized by that one ratio. */
module Scale {
  import opened Wrappers
  import opened Text

  /** A top-level window as `node-window-manager` lists it. */
  datatype Window = Window(title: string, width: nat, height: nat)

  /** `{ x, y }` as `getScaleFactor` returns it. */
  datatype ScaleFactor = ScaleFactor(x: real, y: real)

  /** The resolution the template images were captured at. */
  const BaseWidth: nat := 2560
  const BaseHeight: nat := 1080

  /** The text searched for in lower-cased window titles. */
  const TitleHint: string := "browndust"

  predicate IsTarget(w: Window) {
    Contains(ToLower(w.title), TitleHint)
  }

  /** `windows.find(w => w.getTitle().toLowerCase().includes('browndust'))`:
      the index of the first matching window. */
  function FindTarget(ws: seq<Window>): (r: Option<nat>)
    ensures r.Some? ==> r.value < |ws| && IsTarget(ws[r.value])
    ensures r.Some? ==> forall i :: 0 <= i < r.value ==> !IsTarget(ws[i])
    ensures r.None? <==> forall i :: 0 <= i < |ws| ==> !IsTarget(ws[i])
  {
    if |ws| == 0 then None
    else if IsTarget(ws[0]) then Some(0)
    else match FindTarget(ws[1..])
      case None => None
      case Some(i) => Some(i + 1)
  }

  /** `getScaleFactor`. Without a target window the script logs and then
      calls `bringToTop` on `undefined`, which throws; that is the failure. */
  function GetScaleFactor(ws: seq<Window>): (r: Result<ScaleFactor, string>)
    ensures r.Failure? <==> forall i :: 0 <= i < |ws| ==> !IsTarget(ws[i])
    ensures r.Success? ==> r.value.x == r.value.y
    ensures r.Success? ==>
      (exists i :: 0 <= i < |ws| && IsTarget(ws[i])
         && (forall j :: 0 <= j < i ==> !IsTarget(ws[j]))
         && r.value.y * BaseHeight as real == ws[i].height as real)
  {
    match FindTarget(ws)
    case None => Failure("window not found")
    case Some(i) =>
      var h := ws[i].height as real / BaseHeight as real;
      Success(ScaleFactor(h, h))
  }

  /** The factor depends on the window height alone: the window's width and
      the 2560 base width play no part. */
  lemma ScaleIgnoresWidth(ws: seq<Window>, k: nat, width: nat)
    requires k < |ws|
    ensures GetScaleFactor(ws[k := ws[k].(width := width)]) == GetScaleFactor(ws)
  {
    var ws' := ws[k := ws[k].(width := width)];
    assert forall i :: 0 <= i < |ws| ==> IsTarget(ws'[i]) == IsTarget(ws[i]);
    assert forall i :: 0 <= i < |ws| ==> ws'[i].height == ws[i].height;
    FindTargetSameTargets(ws, ws');
  }

  lemma {:induction false} FindTargetSameTargets(ws: seq<Window>, ws': seq<Window>)
    requires |ws| == |ws'|
    requires forall i :: 0 <= i < |ws| ==> IsTarget(ws'[i]) == IsTarget(ws[i])
    ensures FindTarget(ws') == FindTarget(ws)
    decreases |ws|
  {
    if |ws| > 0 {
      FindTargetSameTargets(ws[1..], ws'[1..]);
    }
  }

  /** Doubling the window height doubles the factor. */
  lemma ScaleDoubles(title: string, width: nat, height: nat)
    requires IsTarget(Window(title, width, height))
    ensures GetScaleFactor([Window(title, width, 2 * height)]).value.x
         == 2.0 * GetScaleFactor([Window(title, width, height)]).value.x
  {
  }

  /** JavaScript `Math.round` on a non-negative value: the nearest integer,
      halves rounded up. */
  function Round(v: real): (n: int)
    requires v >= 0.0
    ensures n >= 0
    ensures n as real <= v + 0.5 < n as real + 1.0
  {
    (v + 0.5).Floor
  }

  /** The scaled template side `Math.round(side * H / 1080)` in integers. */
  function ScaledSide(side: nat, height: nat): (n: nat)
    ensures 2160 * n <= 2 * side * height + 1080 < 2160 * n + 2160
  {
    (2 * side * height + 1080) / 2160
  }

  /** The integer form agrees with `Math.round(side * scaleFactor.x)` over
      exact real numbers. */
  lemma {:induction false} ScaledSideIsRound(side: nat, height: nat)
    ensures ScaledSide(side, height) == Round(side as real * (height as real / BaseHeight as real))
  {
    var n := ScaledSide(side, height);
    var N := side * height;
    var v := side as real * (height as real / 1080.0);
    assert v == N as real / 1080.0;
    assert 2160 * n <= 2 * N + 1080 < 2160 * n + 2160;
    assert 2160.0 * n as real <= 2.0 * N as real + 1080.0;
    assert n as real <= v + 0.5;
    assert v + 0.5 < n as real + 1.0;
  }

  /** At the design height templates keep their native size. */
  lemma ScaledSideAtBase(side: nat)
    ensures ScaledSide(side, BaseHeight) == side
  {
  }

  /** A taller window never gives a smaller template. */
  lemma ScaledSideMonotone(side: nat, h1: nat, h2: nat)
    requires h1 <= h2
    ensures ScaledSide(side, h1) <= ScaledSide(side, h2)
  {
    assert side * h1 <= side * h2 by {
      assert side * h2 - side * h1 == side * (h2 - h1);
    }
  }
}
