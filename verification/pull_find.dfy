/** `pullForMe` of components/find.cjs: one `while (isRunning)` loop that
    draws, confirms, dismisses the results and counts five-stars, with every
    capture and match wrapped in `withAbort`. */
module PullLoopFind {
  import opened Wrappers
  import opened Text
  import opened Matching
  import opened Stats
  import opened PullCommon
  import Settings

  /** The four calls the loop makes. `findAndClick` and `find` take
      `(fileName, threshold)` and always pass delay 300. */
  const DrawCall := Call("draw.png", true, None, 300)
  const ConfirmCall := Call("confirm.png", true, None, 300)
  const NextCall := Call("next.png", true, Some(0.5), 300)

  /** `find("5star.png", settings.fiveStarsToScreenshot, 0.9)`: the setting
      lands in the threshold parameter and 0.9 is dropped. */
  function FiveCall(settings: map<string, real>): Call {
    Call("5star.png", false, Setting(settings, "fiveStarsToScreenshot"), 300)
  }

  /** The identifier line 234 reads without any declaration. */
  const Undeclared := "saveImageIfAtLeastNumberFound"

  /** Where control is: the loop test, waiting on one of the four calls,
      or finished. */
  datatype Pc = Top | Draw | Confirm | Next | Five | Done(end: End)

  /** `running` is `isRunning`; `saves` holds the record as each
      `saveStats` call wrote it. */
  datatype State = State(pc: Pc, running: bool, stats: Stats, events: seq<Event>, saves: seq<Stats>)

  predicate Waiting(pc: Pc) {
    pc.Draw? || pc.Confirm? || pc.Next? || pc.Five?
  }

  function CallAt(settings: map<string, real>, pc: Pc): Call
    requires Waiting(pc)
  {
    match pc
    case Draw => DrawCall
    case Confirm => ConfirmCall
    case Next => NextCall
    case Five => FiveCall(settings)
  }

  /** One call settles with `reply`. ESC clears `isRunning` whatever the
      call gives; an error goes to the catch. */
  function Step(settings: map<string, real>, st: State, reply: Reply): (r: State)
    requires Waiting(st.pc) && st.running
    ensures r.running == !reply.escape
    ensures reply.outcome.Returned? ==> r.events == st.events + [Event(CallAt(settings, st.pc), reply.outcome.total)]
    ensures !reply.outcome.Returned? ==> r.events == st.events && r.pc.Done? && r.stats == st.stats
  {
    var st1 := st.(running := !reply.escape);
    match reply.outcome
    case Raised(m) => st1.(pc := Done(if m == "aborted" then Aborted else Failed(m)))
    case NeverReturns(name) => st1.(pc := Done(Hung(name)))
    case Returned(n, _) =>
      var st2 := st1.(events := st.events + [Event(CallAt(settings, st.pc), n)]);
      match st.pc
      case Draw => st2.(pc := if n == 0 then Draw else Confirm)
      case Confirm =>
        st2.(pc := Next, stats := if n != 0 then IncreaseStats(st.stats, reply.hourKey) else st.stats)
      case Next => st2.(pc := if n != 0 then Next else Five)
      case Five =>
        if n > 0 then st2.(pc := Done(ReferenceError(Undeclared)))
        else
          var s := RecordFiveStars(st.stats, 0);
          st2.(pc := Top, stats := s, saves := st.saves + [s])
  }

  /** The run from `st` on, consuming one reply per call. At the loop test a
      cleared `isRunning` ends the loop; at a call `withAbort` throws
      'aborted' before capturing. Without replies left the run is cut off
      where it stands. */
  function Run(settings: map<string, real>, st: State, replies: seq<Reply>): (r: State)
    ensures |st.events| <= |r.events| && r.events[..|st.events|] == st.events
    decreases |replies|, if st.pc.Top? then 1 else 0
  {
    match st.pc
    case Done(_) => st
    case Top => Run(settings, st.(pc := if st.running then Draw else Done(Finished)), replies)
    case _ =>
      if !st.running then st.(pc := Done(Aborted))
      else if |replies| == 0 then st
      else Run(settings, Step(settings, st, replies[0]), replies[1..])
  }

  /** ESC during a call ends the run with no further call returning: the
      next loop test leaves the loop, and a call still to come throws
      'aborted' before it captures. */
  lemma EscEndsRun(settings: map<string, real>, st: State, reply: Reply, rest: seq<Reply>)
    requires Waiting(st.pc) && st.running && reply.escape
    ensures var s1 := Step(settings, st, reply);
      var r := Run(settings, s1, rest);
      && r.events == s1.events && r.stats == s1.stats && r.saves == s1.saves
      && r.pc.Done?
      && (s1.pc.Top? ==> r.pc == Done(Finished))
      && (Waiting(s1.pc) ==> r.pc == Done(Aborted))
  {
  }

  /** `pullForMe()` started with the loaded record `stats`. */
  function PullForMe(settings: map<string, real>, stats: Stats, replies: seq<Reply>): State {
    Run(settings, State(Top, true, stats, [], []), replies)
  }

  /** The order the calls can return in: draw is retried while it returns
      0, confirm follows a successful draw, next follows confirm and is
      retried while it returns non-zero, the five-star count follows the
      next that returned 0, and a new draw follows a count of 0. */
  predicate Follows(settings: map<string, real>, a: Event, b: Event) {
    if b.call == DrawCall then (a.call == DrawCall || a.call == FiveCall(settings)) && a.value == 0
    else if b.call == ConfirmCall then a.call == DrawCall && a.value != 0
    else if b.call == NextCall then a.call == ConfirmCall || (a.call == NextCall && a.value != 0)
    else b.call == FiveCall(settings) && a.call == NextCall && a.value == 0
  }

  predicate Chain(settings: map<string, real>, evs: seq<Event>) {
    && (|evs| > 0 ==> evs[0].call == DrawCall)
    && forall i :: 0 < i < |evs| ==> Follows(settings, evs[i - 1], evs[i])
  }

  /** What the last returned call says about where control is. */
  predicate PcFits(settings: map<string, real>, st: State) {
    var evs := st.events;
    match st.pc
    case Top => |evs| == 0 || (Last(evs).call == FiveCall(settings) && Last(evs).value == 0)
    case Draw => |evs| == 0 || ((Last(evs).call == DrawCall || Last(evs).call == FiveCall(settings)) && Last(evs).value == 0)
    case Confirm => |evs| > 0 && Last(evs).call == DrawCall && Last(evs).value != 0
    case Next => |evs| > 0 && (Last(evs).call == ConfirmCall || (Last(evs).call == NextCall && Last(evs).value != 0))
    case Five => |evs| > 0 && Last(evs).call == NextCall && Last(evs).value == 0
    case Done(_) => true
  }

  /** Everything a run keeps true, relative to the record `s0` it started with. */
  ghost predicate Inv(settings: map<string, real>, s0: Stats, st: State) {
    && Chain(settings, st.events)
    && PcFits(settings, st)
    && st.stats.pulls == s0.pulls + Hits(st.events, ConfirmCall)
    && (HourlyConsistent(s0) ==> HourlyConsistent(st.stats))
    && |st.saves| == Calls(st.events, FiveCall(settings)) - Hits(st.events, FiveCall(settings))
    && Hits(st.events, FiveCall(settings)) == (if st.pc == Done(ReferenceError(Undeclared)) then 1 else 0)
    && (forall k :: k != "0" ==> Bucket(st.stats.fiveStars, k) == Bucket(s0.fiveStars, k))
    && Bucket(st.stats.fiveStars, "0") == Bucket(s0.fiveStars, "0") + |st.saves|
  }

  lemma ChainSnoc(settings: map<string, real>, evs: seq<Event>, e: Event)
    requires Chain(settings, evs)
    requires |evs| == 0 ==> e.call == DrawCall
    requires |evs| > 0 ==> Follows(settings, Last(evs), e)
    ensures Chain(settings, evs + [e])
  {
    var evs' := evs + [e];
    forall i | 0 < i < |evs'|
      ensures Follows(settings, evs'[i - 1], evs'[i])
    {
      if i < |evs| {
        assert evs'[i - 1] == evs[i - 1] && evs'[i] == evs[i];
      }
    }
  }

  lemma StepKeepsOrder(settings: map<string, real>, st: State, reply: Reply)
    requires Waiting(st.pc) && st.running
    requires Chain(settings, st.events) && PcFits(settings, st)
    ensures var r := Step(settings, st, reply);
      Chain(settings, r.events) && PcFits(settings, r)
  {
    if reply.outcome.Returned? {
      var e := Event(CallAt(settings, st.pc), reply.outcome.total);
      ChainSnoc(settings, st.events, e);
      assert Last(st.events + [e]) == e;
    }
  }

  lemma StepKeepsPulls(settings: map<string, real>, s0: Stats, st: State, reply: Reply)
    requires Waiting(st.pc) && st.running
    requires st.stats.pulls == s0.pulls + Hits(st.events, ConfirmCall)
    requires HourlyConsistent(s0) ==> HourlyConsistent(st.stats)
    ensures var r := Step(settings, st, reply);
      && r.stats.pulls == s0.pulls + Hits(r.events, ConfirmCall)
      && (HourlyConsistent(s0) ==> HourlyConsistent(r.stats))
  {
    var r := Step(settings, st, reply);
    if reply.outcome.Returned? {
      var e := Event(CallAt(settings, st.pc), reply.outcome.total);
      CountsSnoc(st.events, e, ConfirmCall, 0);
      if st.pc.Confirm? && e.value != 0 {
        assert r.stats == IncreaseStats(st.stats, reply.hourKey);
        if HourlyConsistent(s0) {
          IncreaseKeepsHourlyConsistent(st.stats, reply.hourKey);
        }
      } else {
        assert r.stats.pulls == st.stats.pulls && r.stats.hourlyPulls == st.stats.hourlyPulls;
        SamePullsConsistent(st.stats, r.stats);
      }
    }
  }

  lemma StepKeepsSaves(settings: map<string, real>, s0: Stats, st: State, reply: Reply)
    requires Waiting(st.pc) && st.running
    requires |st.saves| == Calls(st.events, FiveCall(settings)) - Hits(st.events, FiveCall(settings))
    requires Hits(st.events, FiveCall(settings)) == 0
    requires forall k :: k != "0" ==> Bucket(st.stats.fiveStars, k) == Bucket(s0.fiveStars, k)
    requires Bucket(st.stats.fiveStars, "0") == Bucket(s0.fiveStars, "0") + |st.saves|
    ensures var r := Step(settings, st, reply);
      && |r.saves| == Calls(r.events, FiveCall(settings)) - Hits(r.events, FiveCall(settings))
      && Hits(r.events, FiveCall(settings)) == (if r.pc == Done(ReferenceError(Undeclared)) then 1 else 0)
      && (forall k :: k != "0" ==> Bucket(r.stats.fiveStars, k) == Bucket(s0.fiveStars, k))
      && Bucket(r.stats.fiveStars, "0") == Bucket(s0.fiveStars, "0") + |r.saves|
  {
    var r := Step(settings, st, reply);
    StepReferenceError(settings, st, reply);
    if reply.outcome.Returned? {
      var e := Event(CallAt(settings, st.pc), reply.outcome.total);
      CallAtFive(settings, st.pc);
      CountsSnoc(st.events, e, FiveCall(settings), 0);
      if st.pc.Five? && e.value == 0 {
        assert r.stats == RecordFiveStars(st.stats, 0) && r.saves == st.saves + [r.stats];
        RecordZeroKeepsBuckets(s0, st.stats, |st.saves|);
      } else if !(st.pc.Five? && e.value > 0) {
        assert r.stats.fiveStars == st.stats.fiveStars && r.saves == st.saves;
      }
    }
  }

  /** Only the five-star call is `FiveCall`. */
  lemma CallAtFive(settings: map<string, real>, pc: Pc)
    requires Waiting(pc)
    ensures CallAt(settings, pc) == FiveCall(settings) <==> pc.Five?
  {
  }

  /** A step reads the undeclared name exactly when the five-star count
      returned a positive number. */
  lemma StepReferenceError(settings: map<string, real>, st: State, reply: Reply)
    requires Waiting(st.pc) && st.running
    ensures Step(settings, st, reply).pc == Done(ReferenceError(Undeclared))
        <==> reply.outcome.Returned? && st.pc.Five? && reply.outcome.total > 0
  {
  }

  /** Recording a count of 0 bumps bucket "0" and no other. */
  lemma RecordZeroKeepsBuckets(s0: Stats, s: Stats, n: nat)
    requires forall k :: k != "0" ==> Bucket(s.fiveStars, k) == Bucket(s0.fiveStars, k)
    requires Bucket(s.fiveStars, "0") == Bucket(s0.fiveStars, "0") + n
    ensures var s' := RecordFiveStars(s, 0);
      && (forall k :: k != "0" ==> Bucket(s'.fiveStars, k) == Bucket(s0.fiveStars, k))
      && Bucket(s'.fiveStars, "0") == Bucket(s0.fiveStars, "0") + n + 1
  {
    var s' := RecordFiveStars(s, 0);
    assert NatToString(0) == "0";
    forall k | k != "0"
      ensures Bucket(s'.fiveStars, k) == Bucket(s0.fiveStars, k)
    {
      BumpBucket(s.fiveStars, "0", k);
    }
    BumpBucket(s.fiveStars, "0", "0");
  }

  lemma StepKeepsInv(settings: map<string, real>, s0: Stats, st: State, reply: Reply)
    requires Waiting(st.pc) && st.running
    requires Inv(settings, s0, st)
    ensures Inv(settings, s0, Step(settings, st, reply))
  {
    StepKeepsOrder(settings, st, reply);
    StepKeepsPulls(settings, s0, st, reply);
    StepKeepsSaves(settings, s0, st, reply);
  }

  lemma {:induction false} RunKeepsInv(settings: map<string, real>, s0: Stats, st: State, replies: seq<Reply>)
    requires Inv(settings, s0, st)
    ensures Inv(settings, s0, Run(settings, st, replies))
    decreases |replies|, if st.pc.Top? then 1 else 0
  {
    match st.pc
    case Done(_) =>
    case Top =>
      RunKeepsInv(settings, s0, st.(pc := if st.running then Draw else Done(Finished)), replies);
    case _ =>
      if st.running && |replies| > 0 {
        StepKeepsInv(settings, s0, st, replies[0]);
        RunKeepsInv(settings, s0, Step(settings, st, replies[0]), replies[1..]);
      }
  }

  /** The promises of the loop, for any replies:
      - the calls return in the order `Follows` allows;
      - `pulls` grows by exactly the confirms that clicked, and every such
        pull lands in one hour bucket;
      - a five-star count of 0 is saved in bucket "0", and no other bucket
        of the histogram ever changes;
      - a positive count is never saved: it reads the undeclared identifier
        and the run ends there. */
  lemma PullForMeFacts(settings: map<string, real>, s0: Stats, replies: seq<Reply>)
    ensures var r := PullForMe(settings, s0, replies);
      var five := FiveCall(settings);
      && Chain(settings, r.events)
      && r.stats.pulls == s0.pulls + Hits(r.events, ConfirmCall)
      && (HourlyConsistent(s0) ==> HourlyConsistent(r.stats))
      && (forall k :: k != "0" ==> Bucket(r.stats.fiveStars, k) == Bucket(s0.fiveStars, k))
      && Bucket(r.stats.fiveStars, "0") == Bucket(s0.fiveStars, "0") + |r.saves|
      && |r.saves| == Calls(r.events, five) - Hits(r.events, five)
      && (Hits(r.events, five) > 0 <==> r.pc == Done(ReferenceError(Undeclared)))
      && (Hits(r.events, five) > 0 ==> Last(r.events).call == five && Last(r.events).value > 0)
  {
    var st := State(Top, true, s0, [], []);
    assert Inv(settings, s0, st);
    RunKeepsInv(settings, s0, st, replies);
    var r := PullForMe(settings, s0, replies);
    if Hits(r.events, FiveCall(settings)) > 0 {
      ReferenceErrorAfterFive(settings, s0, st, replies);
    }
  }

  /** The run only reaches the ReferenceError by a positive five-star
      count, which is then the last call that returned. */
  lemma {:induction false} ReferenceErrorAfterFive(settings: map<string, real>, s0: Stats, st: State, replies: seq<Reply>)
    requires Inv(settings, s0, st)
    requires st.pc != Done(ReferenceError(Undeclared))
    requires Run(settings, st, replies).pc == Done(ReferenceError(Undeclared))
    ensures var r := Run(settings, st, replies);
      |r.events| > 0 && Last(r.events).call == FiveCall(settings) && Last(r.events).value > 0
    decreases |replies|, if st.pc.Top? then 1 else 0
  {
    match st.pc
    case Done(_) =>
    case Top =>
      ReferenceErrorAfterFive(settings, s0, st.(pc := if st.running then Draw else Done(Finished)), replies);
    case _ =>
      if st.running && |replies| > 0 {
        var st1 := Step(settings, st, replies[0]);
        StepKeepsInv(settings, s0, st, replies[0]);
        if st1.pc != Done(ReferenceError(Undeclared)) {
          ReferenceErrorAfterFive(settings, s0, st1, replies[1..]);
        }
      }
  }

  /** Draw and confirm run at the 0.6 default and next at 0.5; the
      five-star count runs at the `fiveStarsToScreenshot` setting (the 0.6
      default when it is missing), which with the default settings is 1. */
  lemma CallThresholds(settings: map<string, real>)
    ensures Threshold(FindCjs, DrawCall.threshold) == 0.6
    ensures Threshold(FindCjs, ConfirmCall.threshold) == 0.6
    ensures Threshold(FindCjs, NextCall.threshold) == 0.5
    ensures "fiveStarsToScreenshot" in settings ==>
      Threshold(FindCjs, FiveCall(settings).threshold) == settings["fiveStarsToScreenshot"]
    ensures "fiveStarsToScreenshot" !in settings ==> Threshold(FindCjs, FiveCall(settings).threshold) == 0.6
    ensures Threshold(FindCjs, FiveCall(Settings.Defaults()).threshold) == 1.0
  {
  }
}
