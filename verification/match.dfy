/** `matchTemplatesOpenCV` in its three variants (components/find.cjs,
    index.cjs, index.mjs), from the selected template files to the number
    it returns and the clicks it performs. The correlation itself
    (`cv.matchTemplate` with `TM_CCOEFF_NORMED`) is not computed: every
    template file carries the score grid it produced against the frame. */
module Matching {
  import opened Wrappers
  import opened Text
  import opened ScoreGrid
  import opened Suppression
  import opened Scale

  /** A template image in the templates directory: its file name, native
      size, and the score grid its correlation with the captured frame gave. */
  datatype TemplateFile = TemplateFile(name: string, width: nat, height: nat, scores: Grid)

  /** A mouse position (`robot.moveMouse`); `cols / 2` is a JavaScript
      division, so it may be fractional. */
  datatype Point = Point(x: real, y: real)

  /** Which script's `matchTemplatesOpenCV` runs. */
  datatype Variant =
    | FindCjs   // components/find.cjs: scaled templates, default threshold 0.6
    | IndexCjs  // index.cjs: native templates, default threshold 0.85
    | IndexMjs  // index.mjs: native templates, fixed threshold 0.85

  datatype MatchOutcome =
      /** The promise resolved with `total`, after the mouse clicked at `clicks`. */
    | Returned(total: nat, clicks: seq<Point>)
      /** The call threw (no target window, empty template, `roi` out of range). */
    | Raised(reason: string)
      /** The count loop of template `name` never ends. */
    | NeverReturns(name: string)

  /** The threshold the call uses, given the argument passed (if any). */
  function Threshold(v: Variant, arg: Option<real>): (t: real)
    ensures v == IndexMjs ==> t == 0.85
    ensures arg.None? ==> t == (if v == FindCjs then 0.6 else 0.85)
    ensures v != IndexMjs && arg.Some? ==> t == arg.value
  {
    match v
    case FindCjs => arg.GetOr(0.6)
    case IndexCjs => arg.GetOr(0.85)
    case IndexMjs => 0.85
  }

  /** The count-mode policy of each variant. */
  function PolicyOf(v: Variant): (p: Policy)
    ensures p.strict <==> v != IndexMjs
    ensures p.mask == RoiSetTo <==> v != IndexMjs
  {
    if v == IndexMjs then RectAll else RoiStrict
  }

  predicate IsPng(name: string) {
    EndsWith(name, ".png")
  }

  /** Index of the first directory entry called `name`, if any. */
  function Lookup(dir: seq<TemplateFile>, name: string): (r: Option<nat>)
    ensures r.Some? ==> r.value < |dir| && dir[r.value].name == name
    ensures r.None? <==> forall i :: 0 <= i < |dir| ==> dir[i].name != name
  {
    if |dir| == 0 then None
    else if dir[0].name == name then Some(0)
    else match Lookup(dir[1..], name)
      case None => None
      case Some(i) => Some(i + 1)
  }

  function PngFiles(dir: seq<TemplateFile>): (fs: seq<TemplateFile>)
    ensures |fs| <= |dir|
    ensures forall f :: f in fs <==> f in dir && IsPng(f.name)
  {
    if |dir| == 0 then []
    else (if IsPng(dir[0].name) then [dir[0]] else []) + PngFiles(dir[1..])
  }

  /** The `files` list: the named target if it ends in `.png` and exists,
      otherwise every `.png` in the directory when no target (or the empty,
      falsy, name) is given. */
  function SelectFiles(target: Option<string>, dir: seq<TemplateFile>): (fs: seq<TemplateFile>)
    ensures target.Some? && target.value != "" ==>
      |fs| <= 1
      && (|fs| == 1 <==> IsPng(target.value) && exists i :: 0 <= i < |dir| && dir[i].name == target.value)
      && (|fs| == 1 ==> fs[0].name == target.value && fs[0] in dir)
    ensures target.None? || target.value == "" ==> fs == PngFiles(dir)
  {
    if target.Some? && target.value != "" then
      if IsPng(target.value) then
        match Lookup(dir, target.value)
        case None => []
        case Some(i) => [dir[i]]
      else []
    else PngFiles(dir)
  }

  /** The template size the correlation uses: rescaled by the window height
      in find.cjs, native elsewhere. */
  function TemplateSize(v: Variant, sf: ScaleFactor, f: TemplateFile): (r: (nat, nat))
    requires sf.x >= 0.0 && sf.y >= 0.0
    ensures v != FindCjs ==> r == (f.width, f.height)
    ensures sf == ScaleFactor(1.0, 1.0) ==> r == (f.width, f.height)
  {
    if v == FindCjs then
      (Round(f.width as real * sf.x), Round(f.height as real * sf.y))
    else (f.width, f.height)
  }

  /** In find.cjs the template sides become `Math.round(side * H / 1080)`
      for the height H of the first window whose title names the game. */
  lemma TemplateSizeScaled(ws: seq<Window>, f: TemplateFile)
    requires GetScaleFactor(ws).Success?
    ensures var h := ws[FindTarget(ws).value].height;
      && TemplateSize(FindCjs, GetScaleFactor(ws).value, f).0 == ScaledSide(f.width, h)
      && TemplateSize(FindCjs, GetScaleFactor(ws).value, f).1 == ScaledSide(f.height, h)
  {
    var h := ws[FindTarget(ws).value].height;
    var sf := GetScaleFactor(ws).value;
    assert sf == ScaleFactor(h as real / BaseHeight as real, h as real / BaseHeight as real);
    TemplateSizeAt(sf, h, f);
  }

  lemma TemplateSizeAt(sf: ScaleFactor, h: nat, f: TemplateFile)
    requires sf.x == h as real / BaseHeight as real && sf.y == sf.x
    ensures sf.x >= 0.0 && sf.y >= 0.0
    ensures TemplateSize(FindCjs, sf, f).0 == ScaledSide(f.width, h)
    ensures TemplateSize(FindCjs, sf, f).1 == ScaledSide(f.height, h)
  {
    RoundByFactor(f.width, h, sf.x);
    RoundByFactor(f.height, h, sf.y);
  }

  lemma RoundByFactor(side: nat, h: nat, x: real)
    requires x == h as real / BaseHeight as real
    ensures side as real * x >= 0.0
    ensures Round(side as real * x) == ScaledSide(side, h)
  {
    ScaledSideIsRound(side, h);
  }

  /** Click mode on one score grid: the template centre at the first maximum
      when the maximum reaches the threshold. */
  function ClickAt(g: Grid, cols: nat, rows: nat, t: real): (r: Option<Point>)
    requires WellFormed(g)
    ensures r.Some? <==> exists p :: IsFirstMax(g, p) && At(g, p) >= t
    ensures r.Some? ==>
      (exists p :: IsFirstMax(g, p)
         && r.value == Point(p.x as real + cols as real / 2.0, p.y as real + rows as real / 2.0))
  {
    var p := GridMax(g);
    if At(g, p) >= t then
      Some(Point(p.x as real + cols as real / 2.0, p.y as real + rows as real / 2.0))
    else
      assert forall q :: IsFirstMax(g, q) ==> q == p by {
        forall q | IsFirstMax(g, q) ensures q == p { FirstMaxUnique(g, p, q); }
      }
      None
  }

  predicate AllWellFormed(fs: seq<TemplateFile>) {
    forall i :: 0 <= i < |fs| ==> WellFormed(fs[i].scores)
  }

  lemma PrefixOfPrefix(r: MatchOutcome, clicks: seq<Point>, pt: Point)
    requires r.Returned? ==> |clicks| + 1 <= |r.clicks| && r.clicks[..|clicks| + 1] == clicks + [pt]
    ensures r.Returned? ==> r.clicks[..|clicks|] == clicks
  {
    if r.Returned? {
      assert r.clicks[..|clicks|] == r.clicks[..|clicks| + 1][..|clicks|];
    }
  }

  /** What one iteration of the file loop meets. */
  datatype FileResult =
    | EmptyTemplate(name: string)  // the (scaled) template has no pixels: `matchTemplate` throws
    | Clicked(at: Point)           // click mode: the maximum reached the threshold
    | Missed                       // click mode: it did not
    | Found(count: nat)            // count mode: the suppression loop's count
    | RoiFailed(name: string)      // count mode: `roi` threw
    | LoopHangs(name: string)      // count mode: the suppression loop never ends

  /** The suppression loop run on one file's scores with its template size. */
  function LoopOf(v: Variant, sf: ScaleFactor, t: real, f: TemplateFile): CountOutcome
    requires sf.x >= 0.0 && sf.y >= 0.0
    requires WellFormed(f.scores)
  {
    CountLoop(f.scores, t, TemplateSize(v, sf, f).0, TemplateSize(v, sf, f).1, PolicyOf(v))
  }

  /** Click mode's decision on one file's scores with its template size. */
  function ClickOf(v: Variant, sf: ScaleFactor, t: real, f: TemplateFile): Option<Point>
    requires sf.x >= 0.0 && sf.y >= 0.0
    requires WellFormed(f.scores)
  {
    ClickAt(f.scores, TemplateSize(v, sf, f).0, TemplateSize(v, sf, f).1, t)
  }

  /** One iteration of `for (const file of files)`: match the template,
      then click at the first maximum or run the suppression loop. */
  function MatchFile(v: Variant, sf: ScaleFactor, f: TemplateFile, click: bool, t: real): (r: FileResult)
    requires sf.x >= 0.0 && sf.y >= 0.0
    requires WellFormed(f.scores)
    ensures r.EmptyTemplate? <==> EmptySize(v, sf, f)
    ensures click ==> r.EmptyTemplate? || r.Clicked? || r.Missed?
    ensures click && r.Clicked? ==> ClickOf(v, sf, t, f) == Some(r.at)
    ensures click && r.Missed? ==> ClickOf(v, sf, t, f).None?
    ensures !click ==> !r.Clicked? && !r.Missed?
    ensures !click && r.Found? ==> LoopOf(v, sf, t, f).Counted? && LoopOf(v, sf, t, f).total == r.count
    ensures !click && !EmptySize(v, sf, f) ==> (r.Found? <==> LoopOf(v, sf, t, f).Counted?)
  {
    var size := TemplateSize(v, sf, f);
    var cols, rows := size.0, size.1;
    if cols == 0 || rows == 0 then EmptyTemplate(f.name)
    else if click then
      match ClickAt(f.scores, cols, rows, t)
      case Some(pt) => Clicked(pt)
      case None => Missed
    else
      match CountLoop(f.scores, t, cols, rows, PolicyOf(v))
      case Counted(n, _) => Found(n)
      case RoiOutOfRange(_) => RoiFailed(f.name)
      case Hangs => LoopHangs(f.name)
  }

  /** The iteration results of the files, in order. */
  function FileResults(v: Variant, sf: ScaleFactor, fs: seq<TemplateFile>, click: bool, t: real): (rs: seq<FileResult>)
    requires sf.x >= 0.0 && sf.y >= 0.0
    requires AllWellFormed(fs)
    ensures |rs| == |fs|
    ensures forall i :: 0 <= i < |fs| ==> rs[i] == MatchFile(v, sf, fs[i], click, t)
    decreases |fs|
  {
    if |fs| == 0 then []
    else
      assert AllWellFormed(fs[1..]);
      [MatchFile(v, sf, fs[0], click, t)] + FileResults(v, sf, fs[1..], click, t)
  }

  /** Results that click mode can produce. */
  predicate ClickResults(rs: seq<FileResult>) {
    forall i :: 0 <= i < |rs| ==> rs[i].EmptyTemplate? || rs[i].Clicked? || rs[i].Missed?
  }

  /** Results that count mode can produce. */
  predicate CountResults(rs: seq<FileResult>) {
    forall i :: 0 <= i < |rs| ==> !rs[i].Clicked? && !rs[i].Missed?
  }

  /** The counts of the `Found` results, added up. */
  function FoundSum(rs: seq<FileResult>): nat
    decreases |rs|
  {
    if |rs| == 0 then 0
    else (if rs[0].Found? then rs[0].count else 0) + FoundSum(rs[1..])
  }

  /** The points of the `Clicked` results, in order. */
  function ClickedPoints(rs: seq<FileResult>): seq<Point>
    decreases |rs|
  {
    if |rs| == 0 then []
    else (if rs[0].Clicked? then [rs[0].at] else []) + ClickedPoints(rs[1..])
  }

  /** The loop body's effect on `totalMatches` and the clicks, iteration by
      iteration, stopping at the first iteration that throws or hangs. */
  function Fold(rs: seq<FileResult>, total: nat, clicks: seq<Point>): (r: MatchOutcome)
    ensures r.Returned? ==> |clicks| <= |r.clicks| && r.clicks[..|clicks|] == clicks
    ensures r.Returned? ==> forall i :: 0 <= i < |rs| ==>
      !rs[i].EmptyTemplate? && !rs[i].RoiFailed? && !rs[i].LoopHangs?
    decreases |rs|
  {
    if |rs| == 0 then Returned(total, clicks)
    else
      match rs[0]
      case EmptyTemplate(name) => Raised("empty template " + name)
      case Clicked(pt) =>
        var r := Fold(rs[1..], 1, clicks + [pt]);
        PrefixOfPrefix(r, clicks, pt);
        r
      case Missed => Fold(rs[1..], total, clicks)
      case Found(n) => Fold(rs[1..], total + n, clicks)
      case RoiFailed(name) => Raised("roi out of range in " + name)
      case LoopHangs(name) => NeverReturns(name)
  }

  /** Over count-mode results the loop adds up the counts and clicks nothing. */
  lemma {:induction false} FoldCounts(rs: seq<FileResult>, total: nat, clicks: seq<Point>)
    requires CountResults(rs)
    ensures var r := Fold(rs, total, clicks);
      r.Returned? ==> r.clicks == clicks && r.total == total + FoundSum(rs)
    decreases |rs|
  {
    if |rs| > 0 {
      assert CountResults(rs[1..]);
      assert !rs[0].Clicked? && !rs[0].Missed?;
      if rs[0].Found? {
        FoldCounts(rs[1..], total + rs[0].count, clicks);
      }
    }
  }

  /** Over click-mode results the loop clicks the clicked points in order,
      and `totalMatches` ends at 1 exactly when it started at 1 or
      something was clicked. */
  lemma {:induction false} FoldClicks(rs: seq<FileResult>, total: nat, clicks: seq<Point>)
    requires ClickResults(rs)
    requires total <= 1
    ensures var r := Fold(rs, total, clicks);
      r.Returned? ==>
        && r.clicks == clicks + ClickedPoints(rs)
        && r.total <= 1
        && (r.total == 1 <==> total == 1 || |r.clicks| > |clicks|)
    decreases |rs|
  {
    if |rs| == 0 {
      assert clicks + [] == clicks;
    } else {
      assert ClickResults(rs[1..]);
      assert rs[0].EmptyTemplate? || rs[0].Clicked? || rs[0].Missed?;
      if rs[0].Clicked? {
        var pt := rs[0].at;
        FoldClicks(rs[1..], 1, clicks + [pt]);
        assert clicks + [pt] + ClickedPoints(rs[1..]) == clicks + ([pt] + ClickedPoints(rs[1..]));
      } else if rs[0].Missed? {
        FoldClicks(rs[1..], total, clicks);
        assert ClickedPoints(rs) == ClickedPoints(rs[1..]);
      }
    }
  }

  /** The `for (const file of files)` loop with the running `totalMatches`
      and clicks made so far. */
  function MatchFiles(v: Variant, sf: ScaleFactor, fs: seq<TemplateFile>, click: bool, t: real,
                      total: nat, clicks: seq<Point>): (r: MatchOutcome)
    requires sf.x >= 0.0 && sf.y >= 0.0
    requires AllWellFormed(fs)
    requires click ==> total <= 1
    ensures r.Returned? ==> |clicks| <= |r.clicks| && r.clicks[..|clicks|] == clicks
    ensures r.Returned? && click ==> |r.clicks| <= |clicks| + |fs|
    ensures r.Returned? && click ==> (r.total == 1 <==> total == 1 || |r.clicks| > |clicks|)
    ensures r.Returned? && click ==> r.total <= 1
    ensures r.Returned? && !click ==> r.clicks == clicks && r.total >= total
  {
    var rs := FileResults(v, sf, fs, click, t);
    assert click ==> ClickResults(rs);
    assert !click ==> CountResults(rs);
    if click then
      FoldClicks(rs, total, clicks);
      ClickedPointsLength(rs);
      Fold(rs, total, clicks)
    else
      FoldCounts(rs, total, clicks);
      Fold(rs, total, clicks)
  }

  lemma {:induction false} ClickedPointsLength(rs: seq<FileResult>)
    ensures |ClickedPoints(rs)| <= |rs|
    decreases |rs|
  {
    if |rs| > 0 {
      ClickedPointsLength(rs[1..]);
    }
  }

  /** Each file's count: its suppression loop's total when the loop
      returns one, 0 otherwise. */
  function LoopTotal(v: Variant, sf: ScaleFactor, t: real, f: TemplateFile): nat
    requires sf.x >= 0.0 && sf.y >= 0.0
    requires WellFormed(f.scores)
  {
    var c := LoopOf(v, sf, t, f);
    if c.Counted? then c.total else 0
  }

  /** The sum of the files' suppression-loop totals. */
  function CountSum(v: Variant, sf: ScaleFactor, t: real, fs: seq<TemplateFile>): nat
    requires sf.x >= 0.0 && sf.y >= 0.0
    requires AllWellFormed(fs)
    decreases |fs|
  {
    if |fs| == 0 then 0
    else
      assert AllWellFormed(fs[1..]);
      LoopTotal(v, sf, t, fs[0]) + CountSum(v, sf, t, fs[1..])
  }

  /** The files' click-mode decisions, in file order. */
  function ClickPoints(v: Variant, sf: ScaleFactor, t: real, fs: seq<TemplateFile>): seq<Point>
    requires sf.x >= 0.0 && sf.y >= 0.0
    requires AllWellFormed(fs)
    decreases |fs|
  {
    if |fs| == 0 then []
    else
      assert AllWellFormed(fs[1..]);
      var c := ClickOf(v, sf, t, fs[0]);
      (if c.Some? then [c.value] else []) + ClickPoints(v, sf, t, fs[1..])
  }

  /** With no file of empty size, the count-mode results add up to the
      files' suppression-loop totals. */
  lemma {:induction false} FoundSumIsCountSum(v: Variant, sf: ScaleFactor, t: real, fs: seq<TemplateFile>)
    requires sf.x >= 0.0 && sf.y >= 0.0
    requires AllWellFormed(fs)
    requires forall i :: 0 <= i < |fs| ==> !EmptySize(v, sf, fs[i])
    ensures FoundSum(FileResults(v, sf, fs, false, t)) == CountSum(v, sf, t, fs)
    decreases |fs|
  {
    if |fs| > 0 {
      assert AllWellFormed(fs[1..]);
      var rs := FileResults(v, sf, fs, false, t);
      assert rs[1..] == FileResults(v, sf, fs[1..], false, t);
      assert (if rs[0].Found? then rs[0].count else 0) == LoopTotal(v, sf, t, fs[0]);
      FoundSumIsCountSum(v, sf, t, fs[1..]);
    }
  }

  /** With no file of empty size, the click-mode results are the files'
      click decisions. */
  lemma {:induction false} ClickedPointsAreClickPoints(v: Variant, sf: ScaleFactor, t: real, fs: seq<TemplateFile>)
    requires sf.x >= 0.0 && sf.y >= 0.0
    requires AllWellFormed(fs)
    requires forall i :: 0 <= i < |fs| ==> !EmptySize(v, sf, fs[i])
    ensures ClickedPoints(FileResults(v, sf, fs, true, t)) == ClickPoints(v, sf, t, fs)
    decreases |fs|
  {
    if |fs| > 0 {
      assert AllWellFormed(fs[1..]);
      var rs := FileResults(v, sf, fs, true, t);
      assert rs[1..] == FileResults(v, sf, fs[1..], true, t);
      var c := ClickOf(v, sf, t, fs[0]);
      assert (if rs[0].Clicked? then [rs[0].at] else []) == (if c.Some? then [c.value] else []);
      ClickedPointsAreClickPoints(v, sf, t, fs[1..]);
    }
  }

  /** Count mode adds up the files' counts: a call that returns gives the
      running total plus every file's suppression-loop total, every file
      had a non-empty size and every loop returned a count. */
  lemma MatchFilesCountSum(v: Variant, sf: ScaleFactor, fs: seq<TemplateFile>, t: real,
                           total: nat, clicks: seq<Point>)
    requires sf.x >= 0.0 && sf.y >= 0.0
    requires AllWellFormed(fs)
    ensures var r := MatchFiles(v, sf, fs, false, t, total, clicks);
      r.Returned? ==>
        && r.total == total + CountSum(v, sf, t, fs)
        && forall i :: 0 <= i < |fs| ==> !EmptySize(v, sf, fs[i]) && LoopOf(v, sf, t, fs[i]).Counted?
  {
    var rs := FileResults(v, sf, fs, false, t);
    assert CountResults(rs);
    FoldCounts(rs, total, clicks);
    if Fold(rs, total, clicks).Returned? {
      assert forall i :: 0 <= i < |fs| ==> rs[i].Found?;
      FoundSumIsCountSum(v, sf, t, fs);
    }
  }

  /** Click mode clicks each file's decision in file order: a call that
      returns has added exactly the files' click points, and every file had
      a non-empty size. */
  lemma MatchFilesClicks(v: Variant, sf: ScaleFactor, fs: seq<TemplateFile>, t: real,
                         total: nat, clicks: seq<Point>)
    requires sf.x >= 0.0 && sf.y >= 0.0
    requires AllWellFormed(fs)
    requires total <= 1
    ensures var r := MatchFiles(v, sf, fs, true, t, total, clicks);
      r.Returned? ==>
        && r.clicks == clicks + ClickPoints(v, sf, t, fs)
        && forall i :: 0 <= i < |fs| ==> !EmptySize(v, sf, fs[i])
  {
    var rs := FileResults(v, sf, fs, true, t);
    assert ClickResults(rs);
    FoldClicks(rs, total, clicks);
    if Fold(rs, total, clicks).Returned? {
      ClickedPointsAreClickPoints(v, sf, t, fs);
    }
  }

  /** `matchTemplatesOpenCV(canvas, targetFile, click, delay, threshold)`.
      Only find.cjs looks the window up, once per selected file; its failure
      is the same for every file, so it is taken once before the loop. */
  function MatchTemplates(v: Variant, windows: seq<Window>, target: Option<string>,
                          dir: seq<TemplateFile>, click: bool, threshold: Option<real>): (r: MatchOutcome)
    requires AllWellFormed(dir)
    ensures r.Returned? && click ==> r.total <= 1 && |r.clicks| <= |SelectFiles(target, dir)|
    ensures r.Returned? && click ==> (r.total == 1 <==> |r.clicks| > 0)
    ensures r.Returned? && !click ==> r.clicks == []
    ensures |SelectFiles(target, dir)| == 0 ==> r == Returned(0, [])
  {
    var fs := SelectFiles(target, dir);
    assert AllWellFormed(fs);
    if v == FindCjs && |fs| > 0 then
      match GetScaleFactor(windows)
      case Failure(e) => Raised(e)
      case Success(sf) => MatchFiles(v, sf, fs, click, Threshold(v, threshold), 0, [])
    else MatchFiles(v, ScaleFactor(1.0, 1.0), fs, click, Threshold(v, threshold), 0, [])
  }

  /** Whether a template of this size has no pixels, which
      `cv.matchTemplate` refuses. */
  predicate EmptySize(v: Variant, sf: ScaleFactor, f: TemplateFile)
    requires sf.x >= 0.0 && sf.y >= 0.0
  {
    TemplateSize(v, sf, f).0 == 0 || TemplateSize(v, sf, f).1 == 0
  }

  /** A call on one file folds that file's result alone. */
  lemma SingleFile(v: Variant, sf: ScaleFactor, f: TemplateFile, click: bool, t: real)
    requires sf.x >= 0.0 && sf.y >= 0.0
    requires WellFormed(f.scores)
    ensures MatchFiles(v, sf, [f], click, t, 0, []) == Fold([MatchFile(v, sf, f, click, t)], 0, [])
  {
    assert FileResults(v, sf, [f], click, t) == [MatchFile(v, sf, f, click, t)];
  }

  /** Click mode on one template: 1 and a click at the template centre over
      the first maximum exactly when the maximum reaches the threshold,
      otherwise 0 and no click. */
  lemma ClickOneFile(v: Variant, sf: ScaleFactor, f: TemplateFile, t: real)
    requires sf.x >= 0.0 && sf.y >= 0.0
    requires WellFormed(f.scores) && !EmptySize(v, sf, f)
    ensures var r := MatchFiles(v, sf, [f], true, t, 0, []);
      var (cols, rows) := TemplateSize(v, sf, f);
      var p := GridMax(f.scores);
      && r.Returned?
      && (r.total == 1 <==> MaxVal(f.scores) >= t)
      && (r.total == 0 <==> MaxVal(f.scores) < t)
      && (r.total == 1 ==> r.clicks == [Point(p.x as real + cols as real / 2.0, p.y as real + rows as real / 2.0)])
      && (r.total == 0 ==> r.clicks == [])
  {
    var p := GridMax(f.scores);
    var (cols, rows) := TemplateSize(v, sf, f);
    var x := MatchFile(v, sf, f, true, t);
    SingleFile(v, sf, f, true, t);
    assert [x][1..] == [];
    assert x == (if At(f.scores, p) >= t
                 then Clicked(Point(p.x as real + cols as real / 2.0, p.y as real + rows as real / 2.0))
                 else Missed);
  }

  /** Count mode on one template: the call returns exactly the suppression
      loop's count, and throws or never returns exactly when the loop does. */
  lemma CountOneFile(v: Variant, sf: ScaleFactor, f: TemplateFile, t: real)
    requires sf.x >= 0.0 && sf.y >= 0.0
    requires WellFormed(f.scores) && !EmptySize(v, sf, f)
    ensures var r := MatchFiles(v, sf, [f], false, t, 0, []);
      var c := CountLoop(f.scores, t, TemplateSize(v, sf, f).0, TemplateSize(v, sf, f).1, PolicyOf(v));
      && (r.Returned? <==> c.Counted?)
      && (c.Counted? ==> r == Returned(c.total, []))
      && (c.RoiOutOfRange? <==> r.Raised?)
      && (c.Hangs? <==> r.NeverReturns?)
  {
    var x := MatchFile(v, sf, f, false, t);
    SingleFile(v, sf, f, false, t);
    assert [x][1..] == [];
  }

  /** A target that is not a `.png` or is not in the directory selects no
      file: the call returns 0 without clicking and, in find.cjs, without
      looking the window up. */
  lemma MissingTargetReturnsZero(v: Variant, windows: seq<Window>, name: string,
                                 dir: seq<TemplateFile>, click: bool, threshold: Option<real>)
    requires AllWellFormed(dir)
    requires name != ""
    requires !IsPng(name) || forall i :: 0 <= i < |dir| ==> dir[i].name != name
    ensures MatchTemplates(v, windows, Some(name), dir, click, threshold) == Returned(0, [])
  {
  }

  /** With an existing `.png` target, the call works on that one file. */
  lemma TargetSelectsOneFile(name: string, dir: seq<TemplateFile>)
    requires IsPng(name)
    requires exists i :: 0 <= i < |dir| && dir[i].name == name
    ensures SelectFiles(Some(name), dir) == [dir[Lookup(dir, name).value]]
  {
  }

  /** find.cjs, with at least one file to match and no target window, fails
      whatever the scores are. */
  lemma FindCjsNeedsWindow(windows: seq<Window>, target: Option<string>,
                           dir: seq<TemplateFile>, click: bool, threshold: Option<real>)
    requires AllWellFormed(dir)
    requires |SelectFiles(target, dir)| > 0
    requires forall i :: 0 <= i < |windows| ==> !IsTarget(windows[i])
    ensures MatchTemplates(FindCjs, windows, target, dir, click, threshold).Raised?
  {
  }
}
