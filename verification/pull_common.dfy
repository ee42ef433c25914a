/** What the three `pullForMe` variants share. Each run is driven by the
    replies its calls to `findAndClick` / `find` meet, one reply per call, so
    the screen, the clock and the keyboard are all inputs; the run stops
    where the replies run out. */
module PullCommon {
  import opened Wrappers
  import opened Text
  import opened Scale
  import opened Matching
  import opened Stats

  /** One call of `matchTemplatesOpenCV`, made by `findAndClick` (click mode)
      or `find` (count mode): the template file, the threshold argument
      (None when the caller leaves it undefined) and the delay. */
  datatype Call = Call(file: string, click: bool, threshold: Option<real>, delay: nat)

  /** What one call meets: the outcome of matching the frame captured for
      it, whether ESC was pressed before the call settled (find.cjs only),
      and the hour key the clock gives when it settles. */
  datatype Reply = Reply(outcome: MatchOutcome, escape: bool, hourKey: string)

  /** A call that returned, with the number it returned. */
  datatype Event = Event(call: Call, value: nat)

  /** How a run ends. */
  datatype End =
    | Finished                       // the loop or the chain of cycles stopped by itself
    | Aborted                        // an error with message 'aborted' reached the catch
    | Failed(message: string)        // any other error reached the catch
    | ReferenceError(name: string)   // an undeclared identifier was read
    | Hung(template: string)         // a count loop never returned

  /** `settings[key]`, undefined when the key is missing. */
  function Setting(settings: map<string, real>, key: string): (r: Option<real>)
    ensures r.Some? <==> key in settings
    ensures r.Some? ==> r.value == settings[key]
  {
    if key in settings then Some(settings[key]) else None
  }

  /** A histogram bucket, `(m[k] || 0)`. */
  function Bucket(m: Option<Counts>, k: string): int {
    if m.Some? && k in m.value then m.value[k] else 0
  }

  /** Bumping one bucket adds one to it and leaves every other bucket alone. */
  lemma BumpBucket(m: Option<Counts>, key: string, k: string)
    ensures Bucket(Some(Bump(m, key)), k) == Bucket(m, k) + (if k == key then 1 else 0)
  {
  }

  function Last(evs: seq<Event>): Event
    requires |evs| > 0
  {
    evs[|evs| - 1]
  }

  /** The number of calls `c` that returned a non-zero number. */
  function Hits(evs: seq<Event>, c: Call): (n: nat)
    ensures n <= |evs|
  {
    if |evs| == 0 then 0
    else Hits(evs[..|evs| - 1], c) + (if Last(evs).call == c && Last(evs).value != 0 then 1 else 0)
  }

  /** The number of calls `c` that returned. */
  function Calls(evs: seq<Event>, c: Call): (n: nat)
    ensures n <= |evs|
  {
    if |evs| == 0 then 0
    else Calls(evs[..|evs| - 1], c) + (if Last(evs).call == c then 1 else 0)
  }

  /** The number of calls `c` that returned exactly `v`. */
  function CallsWith(evs: seq<Event>, c: Call, v: nat): (n: nat)
    ensures n <= Calls(evs, c)
  {
    if |evs| == 0 then 0
    else CallsWith(evs[..|evs| - 1], c, v) + (if Last(evs).call == c && Last(evs).value == v then 1 else 0)
  }

  /** Appending one event moves each count by what that event contributes. */
  lemma CountsSnoc(evs: seq<Event>, e: Event, c: Call, v: nat)
    ensures Hits(evs + [e], c) == Hits(evs, c) + (if e.call == c && e.value != 0 then 1 else 0)
    ensures Calls(evs + [e], c) == Calls(evs, c) + (if e.call == c then 1 else 0)
    ensures CallsWith(evs + [e], c, v) == CallsWith(evs, c, v) + (if e.call == c && e.value == v then 1 else 0)
  {
    assert (evs + [e])[..|evs + [e]| - 1] == evs;
  }

  /** The frame a call looks at: the open windows and the templates
      directory, every template carrying its score grid against the frame. */
  datatype Frame = Frame(windows: seq<Window>, dir: seq<TemplateFile>)

  /** The outcome a call of variant `v` meets on frame `f`. */
  function Observe(v: Variant, c: Call, f: Frame): MatchOutcome
    requires AllWellFormed(f.dir)
  {
    MatchTemplates(v, f.windows, Some(c.file), f.dir, c.click, c.threshold)
  }

  /** A click-mode call returns 0 or 1, and 1 exactly when it clicked; a
      count-mode call never clicks. A reply built by `Observe` is the only
      kind the scripts can meet, so the loops' `=== 0` / `!== 0` tests are
      tests of "clicked". */
  lemma ObservedClicks(v: Variant, c: Call, f: Frame)
    requires AllWellFormed(f.dir)
    requires c.file != ""
    ensures var r := Observe(v, c, f);
      && (r.Returned? && c.click ==> r.total <= 1 && |r.clicks| <= 1 && (r.total == 1 <==> |r.clicks| == 1))
      && (r.Returned? && !c.click ==> r.clicks == [])
  {
  }
}
