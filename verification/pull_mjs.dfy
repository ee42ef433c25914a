/** `pullForMe` of index.mjs: draw, confirm, count the eleanor banner,
    dismiss the results with next or darknext, count five-stars only when
    the banner was seen, and start another cycle below two five-stars. No
    record is kept. As in index.cjs, the un-awaited recursive call is
    modelled as the cycles running one after another. */
module PullCycleMjs {
  import opened Wrappers
  import opened Matching
  import opened PullCommon

  /** `findAndClick(fileName)` passes no delay, so the 500 default applies;
      `find(fileName, timeout = 500)` passes its second argument as the delay,
      never as a threshold. */
  const DrawCall := Call("draw.png", true, None, 500)
  const ConfirmCall := Call("confirm.png", true, None, 500)
  const EleanorCall := Call("eleanor.png", false, None, 500)
  const NextCall := Call("next.png", true, None, 500)
  const DarkNextCall := Call("darknext.png", true, None, 500)
  const FiveCall := Call("5star.png", false, None, 2000)

  /** The cycle starts again below this many five-stars. */
  const Wanted := 2

  datatype Pc = Draw | Confirm | Eleanor | Next | DarkNext | Five | Done(end: End)

  /** `eleanor` is `atLeastOneFiveStar` of the current cycle. */
  datatype State = State(pc: Pc, eleanor: nat, events: seq<Event>)

  function CallAt(pc: Pc): Call
    requires !pc.Done?
  {
    match pc
    case Draw => DrawCall
    case Confirm => ConfirmCall
    case Eleanor => EleanorCall
    case Next => NextCall
    case DarkNext => DarkNextCall
    case Five => FiveCall
  }

  /** One call settles with `reply`. `a || b` calls darknext only when next
      returned 0; the dismiss loop goes on while either clicked. After it,
      a zero eleanor count leaves `fiveStarsPulled` at 0, which restarts. */
  function Step(st: State, reply: Reply): (r: State)
    requires !st.pc.Done?
    ensures reply.outcome.Returned? ==> r.events == st.events + [Event(CallAt(st.pc), reply.outcome.total)]
    ensures !reply.outcome.Returned? ==> r.events == st.events && r.pc.Done?
  {
    match reply.outcome
    case Raised(m) => st.(pc := Done(Failed(m)))
    case NeverReturns(name) => st.(pc := Done(Hung(name)))
    case Returned(n, _) =>
      var st1 := st.(events := st.events + [Event(CallAt(st.pc), n)]);
      match st.pc
      case Draw => st1.(pc := Confirm)
      case Confirm => st1.(pc := Eleanor)
      case Eleanor => st1.(pc := Next, eleanor := n)
      case Next => st1.(pc := if n != 0 then Next else DarkNext)
      case DarkNext =>
        if n != 0 then st1.(pc := Next)
        else if st.eleanor != 0 then st1.(pc := Five)
        else st1.(pc := Draw)
      case Five => st1.(pc := if n < Wanted then Draw else Done(Finished))
  }

  function Run(st: State, replies: seq<Reply>): (r: State)
    ensures |st.events| <= |r.events| && r.events[..|st.events|] == st.events
    decreases |replies|
  {
    if st.pc.Done? || |replies| == 0 then st
    else Run(Step(st, replies[0]), replies[1..])
  }

  function PullForMe(replies: seq<Reply>): State {
    Run(State(Draw, 0, []), replies)
  }

  /** The order the calls can return in. */
  predicate Follows(a: Event, b: Event) {
    if b.call == DrawCall then (a.call == FiveCall && a.value < Wanted) || (a.call == DarkNextCall && a.value == 0)
    else if b.call == ConfirmCall then a.call == DrawCall
    else if b.call == EleanorCall then a.call == ConfirmCall
    else if b.call == NextCall then a.call == EleanorCall || ((a.call == NextCall || a.call == DarkNextCall) && a.value != 0)
    else if b.call == DarkNextCall then a.call == NextCall && a.value == 0
    else b.call == FiveCall && a.call == DarkNextCall && a.value == 0
  }

  predicate Chain(evs: seq<Event>) {
    && (|evs| > 0 ==> evs[0].call == DrawCall)
    && forall i :: 0 < i < |evs| ==> Follows(evs[i - 1], evs[i])
  }

  /** The latest eleanor count among the first `i` events, 0 before the first. */
  function EleanorBefore(evs: seq<Event>, i: nat): nat
    requires i <= |evs|
  {
    if i == 0 then 0
    else if evs[i - 1].call == EleanorCall then evs[i - 1].value
    else EleanorBefore(evs, i - 1)
  }

  lemma {:induction false} EleanorBeforeSnoc(evs: seq<Event>, e: Event, i: nat)
    requires i <= |evs|
    ensures EleanorBefore(evs + [e], i) == EleanorBefore(evs, i)
  {
    if i > 0 {
      assert (evs + [e])[i - 1] == evs[i - 1];
      EleanorBeforeSnoc(evs, e, i - 1);
    }
  }

  /** The five-star count is taken only in a cycle whose eleanor count is
      non-zero. */
  predicate FiveGated(evs: seq<Event>) {
    forall i :: 0 <= i < |evs| && evs[i].call == FiveCall ==> EleanorBefore(evs, i) != 0
  }

  /** Right after the dismiss loop ends, the five-star count is taken
      exactly when the eleanor count is non-zero. */
  predicate LoopExitGated(evs: seq<Event>) {
    forall i :: 0 < i < |evs| && evs[i - 1].call == DarkNextCall && evs[i - 1].value == 0 ==>
      (evs[i].call == FiveCall <==> EleanorBefore(evs, i) != 0)
  }

  predicate Gated(evs: seq<Event>) {
    FiveGated(evs) && LoopExitGated(evs)
  }

  predicate PcFits(st: State) {
    var evs := st.events;
    && st.eleanor == EleanorBefore(evs, |evs|)
    && match st.pc
      case Draw => |evs| == 0 || (Last(evs).call == FiveCall && Last(evs).value < Wanted)
                   || (Last(evs).call == DarkNextCall && Last(evs).value == 0 && EleanorBefore(evs, |evs|) == 0)
      case Confirm => |evs| > 0 && Last(evs).call == DrawCall
      case Eleanor => |evs| > 0 && Last(evs).call == ConfirmCall
      case Next => |evs| > 0 && (Last(evs).call == EleanorCall
                   || ((Last(evs).call == NextCall || Last(evs).call == DarkNextCall) && Last(evs).value != 0))
      case DarkNext => |evs| > 0 && Last(evs).call == NextCall && Last(evs).value == 0
      case Five => |evs| > 0 && Last(evs).call == DarkNextCall && Last(evs).value == 0 && EleanorBefore(evs, |evs|) != 0
      case Done(e) => e == Finished ==> |evs| > 0 && Last(evs).call == FiveCall && Last(evs).value >= Wanted
  }

  predicate Inv(st: State) {
    Chain(st.events) && Gated(st.events) && PcFits(st)
  }

  lemma ChainSnoc(evs: seq<Event>, e: Event)
    requires Chain(evs)
    requires |evs| == 0 ==> e.call == DrawCall
    requires |evs| > 0 ==> Follows(Last(evs), e)
    ensures Chain(evs + [e])
  {
    var evs' := evs + [e];
    forall i | 0 < i < |evs'|
      ensures Follows(evs'[i - 1], evs'[i])
    {
      if i < |evs| {
        assert evs'[i - 1] == evs[i - 1] && evs'[i] == evs[i];
      }
    }
  }

  lemma FiveGatedSnoc(evs: seq<Event>, e: Event)
    requires FiveGated(evs)
    requires e.call == FiveCall ==> EleanorBefore(evs, |evs|) != 0
    ensures FiveGated(evs + [e])
  {
    var evs' := evs + [e];
    forall i | 0 <= i < |evs'| && evs'[i].call == FiveCall
      ensures EleanorBefore(evs', i) != 0
    {
      EleanorBeforeSnoc(evs, e, i);
      if i < |evs| {
        assert evs'[i] == evs[i];
      }
    }
  }

  lemma LoopExitGatedSnoc(evs: seq<Event>, e: Event)
    requires LoopExitGated(evs)
    requires |evs| > 0 && Last(evs).call == DarkNextCall && Last(evs).value == 0 ==>
               (e.call == FiveCall <==> EleanorBefore(evs, |evs|) != 0)
    ensures LoopExitGated(evs + [e])
  {
    var evs' := evs + [e];
    forall i | 0 < i < |evs'| && evs'[i - 1].call == DarkNextCall && evs'[i - 1].value == 0
      ensures evs'[i].call == FiveCall <==> EleanorBefore(evs', i) != 0
    {
      EleanorBeforeSnoc(evs, e, i);
      assert evs'[i - 1] == evs[i - 1];
      if i < |evs| {
        assert evs'[i] == evs[i];
      }
    }
  }

  lemma StepKeepsInv(st: State, reply: Reply)
    requires !st.pc.Done?
    requires Inv(st)
    ensures Inv(Step(st, reply))
  {
    var r := Step(st, reply);
    if reply.outcome.Returned? {
      var e := Event(CallAt(st.pc), reply.outcome.total);
      ChainSnoc(st.events, e);
      FiveGatedSnoc(st.events, e);
      LoopExitGatedSnoc(st.events, e);
      assert Last(r.events) == e;
      EleanorBeforeSnoc(st.events, e, |st.events|);
    }
  }

  lemma {:induction false} RunKeepsInv(st: State, replies: seq<Reply>)
    requires Inv(st)
    ensures Inv(Run(st, replies))
    decreases |replies|
  {
    if !st.pc.Done? && |replies| > 0 {
      StepKeepsInv(st, replies[0]);
      RunKeepsInv(Step(st, replies[0]), replies[1..]);
    }
  }

  /** The promises of the chain of cycles, for any replies: the calls return
      in the order `Follows` allows, darknext only after a next that
      returned 0; the five-star count is taken exactly in the cycles whose
      eleanor count is non-zero; and the chain stops by itself only after a
      count of at least two. */
  lemma PullForMeFacts(replies: seq<Reply>)
    ensures var r := PullForMe(replies);
      && Chain(r.events)
      && Gated(r.events)
      && (r.pc == Done(Finished) ==> |r.events| > 0 && Last(r.events).call == FiveCall && Last(r.events).value >= Wanted)
  {
    RunKeepsInv(State(Draw, 0, []), replies);
  }

  /** Every call runs at the fixed 0.85, whatever it passes. */
  lemma CallThresholds(c: Call)
    ensures Threshold(IndexMjs, c.threshold) == 0.85
  {
  }
}
