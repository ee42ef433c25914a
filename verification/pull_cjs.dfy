/** `pullForMe` of index.cjs: one cycle (draw, confirm, dismiss the
    results, count five-stars) that starts the next cycle when too few
    five-stars were found, then records the cycle in the histogram. The
    un-awaited recursive call is modelled as the cycles running one after
    another: everything the caller does after starting it happens before
    the new cycle's first capture settles. */
module PullCycleCjs {
  import opened Wrappers
  import opened Text
  import opened Matching
  import opened Stats
  import opened PullCommon
  import Settings

  /** The calls of one cycle. `findAndClick` takes `(fileName, threshold)`,
      `find` takes `(fileName, saveImageIfAtLeastNumberFound, threshold)`. */
  const DrawCall := Call("draw.png", true, None, 300)
  const ConfirmCall := Call("confirm.png", true, None, 300)
  const NextCall := Call("next.png", true, Some(0.3), 300)
  const FiveCall := Call("5star.png", false, Some(0.95), 300)

  /** `numberFound >= saveImageIfAtLeastNumberFound`, which is false when
      the setting is undefined. */
  predicate Screenshot(settings: map<string, real>, n: nat) {
    var v := Setting(settings, "fiveStarsToScreenshot");
    v.Some? && n as real >= v.value
  }

  /** `fiveStarsPulled < settings.fiveStarsToPull`, false when undefined. */
  predicate Continues(settings: map<string, real>, n: nat) {
    var v := Setting(settings, "fiveStarsToPull");
    v.Some? && (n as real) < v.value
  }

  datatype Pc = Draw | Confirm | Next | Five | Done(end: End)

  /** `saves` holds the record as each `saveStats` call wrote it, `shots`
      the count in the name of each screenshot taken. */
  datatype State = State(pc: Pc, stats: Stats, events: seq<Event>, saves: seq<Stats>, shots: seq<nat>)

  function CallAt(pc: Pc): Call
    requires !pc.Done?
  {
    match pc
    case Draw => DrawCall
    case Confirm => ConfirmCall
    case Next => NextCall
    case Five => FiveCall
  }

  /** One call settles with `reply`; an error ends this cycle in the catch,
      and with it the chain. */
  function Step(settings: map<string, real>, st: State, reply: Reply): (r: State)
    requires !st.pc.Done?
    ensures reply.outcome.Returned? ==> r.events == st.events + [Event(CallAt(st.pc), reply.outcome.total)]
    ensures !reply.outcome.Returned? ==> r.events == st.events && r.pc.Done? && r.stats == st.stats
  {
    match reply.outcome
    case Raised(m) => st.(pc := Done(Failed(m)))
    case NeverReturns(name) => st.(pc := Done(Hung(name)))
    case Returned(n, _) =>
      var st1 := st.(events := st.events + [Event(CallAt(st.pc), n)]);
      match st.pc
      case Draw => st1.(pc := Confirm)
      case Confirm =>
        st1.(pc := Next, stats := if n != 0 then IncreaseStats(st.stats, reply.hourKey) else st.stats)
      case Next => st1.(pc := if n != 0 then Next else Five)
      case Five =>
        var s := RecordFiveStars(st.stats, n);
        st1.(pc := if Continues(settings, n) then Draw else Done(Finished),
             stats := s, saves := st.saves + [s],
             shots := if Screenshot(settings, n) then st.shots + [n] else st.shots)
  }

  function Run(settings: map<string, real>, st: State, replies: seq<Reply>): (r: State)
    ensures |st.events| <= |r.events| && r.events[..|st.events|] == st.events
    decreases |replies|
  {
    if st.pc.Done? || |replies| == 0 then st
    else Run(settings, Step(settings, st, replies[0]), replies[1..])
  }

  /** The first `pullForMe()` with the loaded record `stats`, and every cycle
      it goes on to start. */
  function PullForMe(settings: map<string, real>, stats: Stats, replies: seq<Reply>): State {
    Run(settings, State(Draw, stats, [], [], []), replies)
  }

  /** The order the calls can return in: every cycle makes exactly one draw
      and one confirm, repeats next until it returns 0, then counts; a new
      cycle follows a count below `fiveStarsToPull`. */
  predicate Follows(settings: map<string, real>, a: Event, b: Event) {
    if b.call == DrawCall then a.call == FiveCall && Continues(settings, a.value)
    else if b.call == ConfirmCall then a.call == DrawCall
    else if b.call == NextCall then a.call == ConfirmCall || (a.call == NextCall && a.value != 0)
    else b.call == FiveCall && a.call == NextCall && a.value == 0
  }

  predicate Chain(settings: map<string, real>, evs: seq<Event>) {
    && (|evs| > 0 ==> evs[0].call == DrawCall)
    && forall i :: 0 < i < |evs| ==> Follows(settings, evs[i - 1], evs[i])
  }

  predicate PcFits(settings: map<string, real>, st: State) {
    var evs := st.events;
    match st.pc
    case Draw => |evs| == 0 || (Last(evs).call == FiveCall && Continues(settings, Last(evs).value))
    case Confirm => |evs| > 0 && Last(evs).call == DrawCall
    case Next => |evs| > 0 && (Last(evs).call == ConfirmCall || (Last(evs).call == NextCall && Last(evs).value != 0))
    case Five => |evs| > 0 && Last(evs).call == NextCall && Last(evs).value == 0
    case Done(e) => e == Finished ==> |evs| > 0 && Last(evs).call == FiveCall && !Continues(settings, Last(evs).value)
  }

  /** The counts of the five-star calls that took a screenshot, in order. */
  function Shots(settings: map<string, real>, evs: seq<Event>): (s: seq<nat>)
    ensures |s| <= Calls(evs, FiveCall)
  {
    if |evs| == 0 then []
    else
      var e := Last(evs);
      Shots(settings, evs[..|evs| - 1]) + (if e.call == FiveCall && Screenshot(settings, e.value) then [e.value] else [])
  }

  ghost predicate Inv(settings: map<string, real>, s0: Stats, st: State) {
    && Chain(settings, st.events)
    && PcFits(settings, st)
    && st.stats.pulls == s0.pulls + Hits(st.events, ConfirmCall)
    && (HourlyConsistent(s0) ==> HourlyConsistent(st.stats))
    && |st.saves| == Calls(st.events, FiveCall)
    && SumOf(st.stats.fiveStars) == SumOf(s0.fiveStars) + Calls(st.events, FiveCall)
    && (forall n: nat :: Bucket(st.stats.fiveStars, NatToString(n))
          == Bucket(s0.fiveStars, NatToString(n)) + CallsWith(st.events, FiveCall, n))
    && st.shots == Shots(settings, st.events)
  }

  lemma ChainSnoc(settings: map<string, real>, evs: seq<Event>, e: Event)
    requires Chain(settings, evs)
    requires |evs| == 0 ==> e.call == DrawCall
    requires |evs| > 0 ==> Follows(settings, Last(evs), e)
    ensures Chain(settings, evs + [e])
  {
    var evs' := evs + [e];
    forall i | 0 < i < |evs'|
      ensures Follows(settings, evs'[i - 1], evs'[i])
    {
      if i < |evs| {
        assert evs'[i - 1] == evs[i - 1] && evs'[i] == evs[i];
      }
    }
  }

  lemma StepKeepsOrder(settings: map<string, real>, st: State, reply: Reply)
    requires !st.pc.Done?
    requires Chain(settings, st.events) && PcFits(settings, st)
    ensures var r := Step(settings, st, reply);
      Chain(settings, r.events) && PcFits(settings, r)
  {
    if reply.outcome.Returned? {
      var e := Event(CallAt(st.pc), reply.outcome.total);
      ChainSnoc(settings, st.events, e);
      assert Last(st.events + [e]) == e;
    }
  }

  lemma StepKeepsPulls(settings: map<string, real>, s0: Stats, st: State, reply: Reply)
    requires !st.pc.Done?
    requires st.stats.pulls == s0.pulls + Hits(st.events, ConfirmCall)
    requires HourlyConsistent(s0) ==> HourlyConsistent(st.stats)
    ensures var r := Step(settings, st, reply);
      && r.stats.pulls == s0.pulls + Hits(r.events, ConfirmCall)
      && (HourlyConsistent(s0) ==> HourlyConsistent(r.stats))
  {
    var r := Step(settings, st, reply);
    if reply.outcome.Returned? {
      var e := Event(CallAt(st.pc), reply.outcome.total);
      CountsSnoc(st.events, e, ConfirmCall, 0);
      if st.pc.Confirm? && e.value != 0 {
        assert r.stats == IncreaseStats(st.stats, reply.hourKey);
        if HourlyConsistent(s0) {
          IncreaseKeepsHourlyConsistent(st.stats, reply.hourKey);
        }
      } else {
        assert r.stats.pulls == st.stats.pulls && r.stats.hourlyPulls == st.stats.hourlyPulls;
        SamePullsConsistent(st.stats, r.stats);
      }
    }
  }

  lemma StepKeepsHistogram(settings: map<string, real>, s0: Stats, st: State, reply: Reply)
    requires !st.pc.Done?
    requires |st.saves| == Calls(st.events, FiveCall)
    requires SumOf(st.stats.fiveStars) == SumOf(s0.fiveStars) + Calls(st.events, FiveCall)
    requires forall n: nat :: Bucket(st.stats.fiveStars, NatToString(n))
               == Bucket(s0.fiveStars, NatToString(n)) + CallsWith(st.events, FiveCall, n)
    requires st.shots == Shots(settings, st.events)
    ensures var r := Step(settings, st, reply);
      && |r.saves| == Calls(r.events, FiveCall)
      && SumOf(r.stats.fiveStars) == SumOf(s0.fiveStars) + Calls(r.events, FiveCall)
      && (forall n: nat :: Bucket(r.stats.fiveStars, NatToString(n))
            == Bucket(s0.fiveStars, NatToString(n)) + CallsWith(r.events, FiveCall, n))
      && r.shots == Shots(settings, r.events)
  {
    var r := Step(settings, st, reply);
    if reply.outcome.Returned? {
      var m := reply.outcome.total;
      var e := Event(CallAt(st.pc), m);
      assert (st.events + [e])[..|st.events + [e]| - 1] == st.events;
      CountsSnoc(st.events, e, FiveCall, 0);
      if st.pc.Five? {
        assert r.stats == RecordFiveStars(st.stats, m);
        RecordBumpsBucket(s0, st.stats, st.events, m);
        RecordAddsOneCycle(st.stats, m);
      } else {
        assert r.stats.fiveStars == st.stats.fiveStars;
        OtherCallKeepsCounts(st.events, e);
      }
    }
  }

  /** Recording a count of `m` adds it to the histogram of recorded counts. */
  lemma RecordBumpsBucket(s0: Stats, s: Stats, evs: seq<Event>, m: nat)
    requires forall n: nat :: Bucket(s.fiveStars, NatToString(n))
               == Bucket(s0.fiveStars, NatToString(n)) + CallsWith(evs, FiveCall, n)
    ensures forall n: nat :: Bucket(RecordFiveStars(s, m).fiveStars, NatToString(n))
              == Bucket(s0.fiveStars, NatToString(n)) + CallsWith(evs + [Event(FiveCall, m)], FiveCall, n)
  {
    var s' := RecordFiveStars(s, m);
    forall n: nat
      ensures Bucket(s'.fiveStars, NatToString(n))
        == Bucket(s0.fiveStars, NatToString(n)) + CallsWith(evs + [Event(FiveCall, m)], FiveCall, n)
    {
      CountsSnoc(evs, Event(FiveCall, m), FiveCall, n);
      BumpBucket(s.fiveStars, NatToString(m), NatToString(n));
      if NatToString(n) == NatToString(m) {
        NatToStringInjective(n, m);
      }
    }
  }

  /** Any other call leaves the counts of five-star results alone. */
  lemma OtherCallKeepsCounts(evs: seq<Event>, e: Event)
    requires e.call != FiveCall
    ensures forall n: nat :: CallsWith(evs + [e], FiveCall, n) == CallsWith(evs, FiveCall, n)
  {
    forall n: nat
      ensures CallsWith(evs + [e], FiveCall, n) == CallsWith(evs, FiveCall, n)
    {
      CountsSnoc(evs, e, FiveCall, n);
    }
  }

  lemma StepKeepsInv(settings: map<string, real>, s0: Stats, st: State, reply: Reply)
    requires !st.pc.Done?
    requires Inv(settings, s0, st)
    ensures Inv(settings, s0, Step(settings, st, reply))
  {
    StepKeepsOrder(settings, st, reply);
    StepKeepsPulls(settings, s0, st, reply);
    StepKeepsHistogram(settings, s0, st, reply);
  }

  lemma {:induction false} RunKeepsInv(settings: map<string, real>, s0: Stats, st: State, replies: seq<Reply>)
    requires Inv(settings, s0, st)
    ensures Inv(settings, s0, Run(settings, st, replies))
    decreases |replies|
  {
    if !st.pc.Done? && |replies| > 0 {
      StepKeepsInv(settings, s0, st, replies[0]);
      RunKeepsInv(settings, s0, Step(settings, st, replies[0]), replies[1..]);
    }
  }

  /** The promises of the chain of cycles, for any replies:
      - the calls return in the order `Follows` allows;
      - `pulls` grows by exactly the confirms that clicked, and every such
        pull lands in one hour bucket;
      - every five-star count is saved once, in the bucket named by the
        count, and the histogram total grows by one per count;
      - a screenshot is taken exactly for the counts reaching
        `fiveStarsToScreenshot`;
      - the chain stops by itself only after a count reaching `fiveStarsToPull`. */
  lemma PullForMeFacts(settings: map<string, real>, s0: Stats, replies: seq<Reply>)
    ensures var r := PullForMe(settings, s0, replies);
      && Chain(settings, r.events)
      && r.stats.pulls == s0.pulls + Hits(r.events, ConfirmCall)
      && (HourlyConsistent(s0) ==> HourlyConsistent(r.stats))
      && |r.saves| == Calls(r.events, FiveCall)
      && SumOf(r.stats.fiveStars) == SumOf(s0.fiveStars) + |r.saves|
      && (forall n: nat :: Bucket(r.stats.fiveStars, NatToString(n))
            == Bucket(s0.fiveStars, NatToString(n)) + CallsWith(r.events, FiveCall, n))
      && r.shots == Shots(settings, r.events)
      && (r.pc == Done(Finished) ==>
            |r.events| > 0 && Last(r.events).call == FiveCall && !Continues(settings, Last(r.events).value))
  {
    var st := State(Draw, s0, [], [], []);
    forall n: nat
      ensures Bucket(st.stats.fiveStars, NatToString(n))
        == Bucket(s0.fiveStars, NatToString(n)) + CallsWith(st.events, FiveCall, n)
    {
    }
    assert Inv(settings, s0, st);
    RunKeepsInv(settings, s0, st, replies);
  }

  /** With the default settings a count of 0 or 1 starts another cycle and
      a count of 1 or more takes a screenshot; the draw and confirm calls
      run at the 0.85 default, next at 0.3 and the count at 0.95. */
  lemma DefaultDecisions()
    ensures var d := Settings.Defaults();
      && Continues(d, 0) && Continues(d, 1) && !Continues(d, 2)
      && !Screenshot(d, 0) && Screenshot(d, 1) && Screenshot(d, 3)
      && Threshold(IndexCjs, DrawCall.threshold) == 0.85
      && Threshold(IndexCjs, ConfirmCall.threshold) == 0.85
      && Threshold(IndexCjs, NextCall.threshold) == 0.3
      && Threshold(IndexCjs, FiveCall.threshold) == 0.95
  {
  }
}
