/**
  The receive ring shared by the network card and EthReceiveFrame
  (src/Eth_82574L/src/eth_82574L_operations.c), as a state machine.  The card fills descriptors
  from its head register up to its tail register; the driver hands out finished descriptors and
  gives them back by moving the tail.  Each access of the driver to a descriptor, a register or
  the device record is a step of its own, and card and driver steps interleave freely.
 */
module ReceiveRing {

  import opened Basics

  type Frame = seq<bv8>

  datatype Descriptor = Descriptor(done: bool, frame: Frame)

  // Where the driver is: outside EthReceiveFrame, at the loop test, before the notification,
  // before clearing DescriptorDone, before writing the tail, before storing CurrentDescriptor.
  datatype Phase = Idle | Test | Notify | Clear | SetTail | Store

  /**
    desc, head, tail: shared with the card; current: CurrentDescriptor of the device; cur, prev,
    count, maximum: the driver's variables.  arrived and delivered record the history: the frames
    the card has stored and the frames the network port has been told of.
   */
  datatype State = State(desc: seq<Descriptor>, head: nat, tail: nat, current: nat,
                         phase: Phase, cur: nat, prev: nat, count: nat, maximum: nat,
                         arrived: seq<Frame>, delivered: seq<Frame>)

  // A frame on the wire, a call of EthReceiveFrame, or one step of a call in progress.
  datatype Event = Wire(frame: Frame) | Call(maximum: nat) | Driver

  // _EthRxInit: all descriptors but the last belong to the card.
  function Init(frames: seq<Frame>): (s: State)
    requires frames != []
    ensures Inv(s)
  {
    State(seq(|frames|, i requires 0 <= i < |frames| => Descriptor(false, frames[i])), 0, |frames| - 1,
          0, Idle, 0, 0, 0, 0, [], [])
  }

  predicate WellFormed(s: State)
  {
    && s.desc != [] && s.head < |s.desc| && s.tail < |s.desc| && s.current < |s.desc|
    && (s.phase != Idle ==> s.cur < |s.desc|) && (s.phase == SetTail ==> s.prev < |s.desc|)
  }

  function NextIndex(i: nat, n: nat): (r: nat)
    requires i < n
    ensures r == if i + 1 == n then 0 else i + 1
  {
    (i + 1) % n
  }

  // The card stores the frame at its head, unless the head has reached the tail: then it is lost.
  function Arrive(s: State, frame: Frame): State
    requires WellFormed(s)
  {
    if s.head == s.tail then s
    else
      s.(desc := s.desc[s.head := Descriptor(true, frame)], head := NextIndex(s.head, |s.desc|),
         arrived := s.arrived + [frame])
  }

  function DriverStep(s: State): State
    requires WellFormed(s)
  {
    match s.phase
    case Idle => s
    case Test => s.(phase := if s.desc[s.cur].done then Notify else Store)
    case Notify => s.(phase := Clear, delivered := s.delivered + [s.desc[s.cur].frame])
    case Clear => s.(phase := SetTail, desc := s.desc[s.cur := s.desc[s.cur].(done := false)], prev := s.cur,
                     cur := NextIndex(s.cur, |s.desc|))
    case SetTail =>
      var received := (s.count + 1) % WORD_SIZE;
      s.(phase := if received == s.maximum then Store else Test, tail := s.prev, count := received)
    case Store => s.(phase := Idle, current := s.cur)
  }

  // Calls do not overlap: a call while one is in progress is not a step.
  function Next(s: State, e: Event): State
    requires WellFormed(s)
  {
    match e
    case Wire(frame) => Arrive(s, frame)
    case Call(maximum) => if s.phase == Idle then s.(phase := Test, cur := s.current, count := 0,
              maximum := maximum) else s
    case Driver => DriverStep(s)
  }

  // ----- slots -----

  // The descriptor of the j-th frame: j modulo n.
  function Slot(j: nat, n: nat): (i: nat)
    requires 0 < n
    ensures i < n
  {
    if j < n then j else Slot(j - n, n)
  }

  lemma {:induction false} SlotStep(j: nat, n: nat)
    requires 0 < n
    ensures Slot(j + 1, n) == NextIndex(Slot(j, n), n)
  {
    if n <= j { SlotStep(j - n, n); }
  }

  // Going round from slot x one meets slot j after j - x steps.
  lemma {:induction false} SlotDistance(x: nat, j: nat, n: nat)
    requires 0 < n && x <= j < x + n
    ensures j - x == if Slot(x, n) <= Slot(j, n) then Slot(j, n) - Slot(x, n) else Slot(j, n) + n - Slot(x, n)
  {
    if n <= x { SlotDistance(x - n, j - n, n); }
  }

  // The frame number, from x on, that belongs to descriptor i.
  lemma {:induction false} SlotAt(x: nat, n: nat, i: nat) returns (j: nat)
    requires i < n
    ensures x <= j < x + n && Slot(j, n) == i
  {
    if n <= x {
      j := SlotAt(x - n, n, i);
      j := j + n;
    } else {
      j := if x <= i then i else i + n;
    }
  }

  // ----- what the descriptors hold -----

  // The n descriptors are those of the frames x, x + 1, .. x + n - 1: the frames that have arrived
  // are stored and marked done, the other descriptors are not done.
  ghost predicate Holds(desc: seq<Descriptor>, arrived: seq<Frame>, x: nat)
    requires desc != []
  {
    forall j: nat :: HoldsAt(desc, arrived, x, j)
  }

  ghost predicate HoldsAt(desc: seq<Descriptor>, arrived: seq<Frame>, x: nat, j: nat)
    requires desc != []
  {
    x <= j < x + |desc| ==>
      && (desc[Slot(j, |desc|)].done <==> j < |arrived|)
      && (j < |arrived| ==> desc[Slot(j, |desc|)].frame == arrived[j])
  }

  lemma HoldsAfterArrival(desc: seq<Descriptor>, arrived: seq<Frame>, x: nat, frame: Frame)
    requires desc != [] && Holds(desc, arrived, x) && x <= |arrived| < x + |desc|
    ensures Holds(desc[Slot(|arrived|, |desc|) := Descriptor(true, frame)], arrived + [frame], x)
  {
    var n, a := |desc|, |arrived|;
    var desc' := desc[Slot(a, n) := Descriptor(true, frame)];
    forall j: nat ensures HoldsAt(desc', arrived + [frame], x, j) {
      assert HoldsAt(desc, arrived, x, j);
      if x <= j < a { SlotDistance(j, a, n); } else if a < j < x + n { SlotDistance(a, j, n); }
    }
  }

  lemma HoldsAfterClear(desc: seq<Descriptor>, arrived: seq<Frame>, x: nat)
    requires desc != [] && Holds(desc, arrived, x) && x < |arrived| < x + |desc|
    ensures Holds(desc[Slot(x, |desc|) := desc[Slot(x, |desc|)].(done := false)], arrived, x + 1)
  {
    var n := |desc|;
    var desc' := desc[Slot(x, n) := desc[Slot(x, n)].(done := false)];
    var x' := x + 1;
    forall j: nat ensures HoldsAt(desc', arrived, x', j) {
      assert HoldsAt(desc, arrived, x, j);
      if x < j < x + n { SlotDistance(x, j, n); }
    }
  }

  // ----- the invariant -----

  // How many descriptors have been cleared, and how many have been given back through the tail.
  function Cleared(s: State): int { |s.delivered| - if s.phase == Clear then 1 else 0 }

  function Returned(s: State): int { Cleared(s) - if s.phase == SetTail then 1 else 0 }

  ghost predicate Inv(s: State)
  {
    var n, a, x, y := |s.desc|, |s.arrived|, Cleared(s), Returned(s);
    && WellFormed(s)
    && 0 <= y && |s.delivered| <= a < y + n && s.delivered == s.arrived[..|s.delivered|]
    && Holds(s.desc, s.arrived, x)
    && s.head == Slot(a, n) && s.tail == Slot(y + n - 1, n)
    && (if s.phase == Idle then s.current == Slot(x, n) else s.cur == Slot(x, n))
    && (s.phase == SetTail ==> s.prev == Slot(y, n))
    && ((s.phase == Notify || s.phase == Clear) ==> x < a)
  }

  // The card stops exactly when all but one of the descriptors are out of its hands.
  lemma CardStops(s: State)
    requires Inv(s)
    ensures s.head == s.tail <==> |s.arrived| == Returned(s) + |s.desc| - 1
  {
    SlotDistance(|s.arrived|, Returned(s) + |s.desc| - 1, |s.desc|);
  }

  lemma ArriveKeepsInv(s: State, frame: Frame)
    requires Inv(s)
    ensures Inv(Arrive(s, frame))
  {
    CardStops(s);
    if s.head != s.tail {
      var r := Arrive(s, frame);
      HoldsAfterArrival(s.desc, s.arrived, Cleared(s), frame);
      assert Holds(r.desc, r.arrived, Cleared(r));
      SlotStep(|s.arrived|, |s.desc|);
      assert r.head == Slot(|r.arrived|, |r.desc|);
      PrefixStays(s.delivered, s.arrived, frame);
    }
  }

  lemma PrefixStays(delivered: seq<Frame>, arrived: seq<Frame>, frame: Frame)
    requires |delivered| <= |arrived| && delivered == arrived[..|delivered|]
    ensures delivered == (arrived + [frame])[..|delivered|]
  {
  }

  lemma DriverKeepsInv(s: State)
    requires Inv(s)
    ensures Inv(DriverStep(s))
  {
    if s.phase == Clear {
      ClearKeepsInv(s);
    } else {
      assert HoldsAt(s.desc, s.arrived, Cleared(s), Cleared(s));
    }
  }

  lemma ClearKeepsInv(s: State)
    requires Inv(s) && s.phase == Clear
    ensures Inv(DriverStep(s))
  {
    HoldsAfterClear(s.desc, s.arrived, Cleared(s));
    SlotStep(Cleared(s), |s.desc|);
  }

  lemma NextKeepsInv(s: State, e: Event)
    requires Inv(s)
    ensures Inv(Next(s, e))
  {
    match e
    case Wire(frame) => ArriveKeepsInv(s, frame);
    case Call(_) =>
    case Driver => DriverKeepsInv(s);
  }

  function Execute(s: State, events: seq<Event>): (r: State)
    requires WellFormed(s)
    ensures WellFormed(r) && |r.desc| == |s.desc|
    decreases |events|
  {
    if events == [] then s else Execute(Next(s, events[0]), events[1..])
  }

  lemma {:induction false} ExecuteKeepsInv(s: State, events: seq<Event>)
    requires Inv(s)
    ensures Inv(Execute(s, events))
    decreases |events|
  {
    if events != [] {
      NextKeepsInv(s, events[0]);
      ExecuteKeepsInv(Next(s, events[0]), events[1..]);
    }
  }

  // Every run: the card takes the next frame exactly when it has not yet filled all but one of the
  // descriptors it has been given back.
  lemma CardTakes(frames: seq<Frame>, events: seq<Event>, frame: Frame)
    requires frames != []
    ensures var s := Execute(Init(frames), events);
      var r := Next(s, Wire(frame));
      && r.arrived == (if |s.arrived| - Returned(s) < |frames| - 1 then s.arrived + [frame] else s.arrived)
      && r.delivered == s.delivered && r.phase == s.phase
  {
    ExecuteKeepsInv(Init(frames), events);
    CardStops(Execute(Init(frames), events));
  }

  // Position i is met going round from `from` before `to` is.
  predicate InRound(from: nat, to: nat, i: nat)
  {
    if from <= to then from <= i < to else i < to || from <= i
  }

  // Every run: frames are delivered in the order they arrived, each once, and none is lost once
  // the card has taken it: what has not been delivered is still in the ring, in order.
  lemma FramesInOrder(frames: seq<Frame>, events: seq<Event>)
    requires frames != []
    ensures var s := Execute(Init(frames), events);
      && s.delivered <= s.arrived && |s.arrived| - |s.delivered| < |s.desc| == |frames|
      && forall j: nat {:trigger s.arrived[j]} :: |s.delivered| <= j < |s.arrived| ==>
           s.desc[Slot(j, |frames|)] == Descriptor(true, s.arrived[j])
  {
    ExecuteKeepsInv(Init(frames), events);
    var s := Execute(Init(frames), events);
    forall j: nat | |s.delivered| <= j < |s.arrived|
      ensures s.desc[Slot(j, |frames|)] == Descriptor(true, s.arrived[j])
    {
      assert HoldsAt(s.desc, s.arrived, Cleared(s), j);
    }
  }

  // DescriptorDone is set from the driver's index up to the card's head, and nowhere else; the
  // tail is one behind the driver's index, and the card is stopped exactly when it has filled
  // every other descriptor.
  predicate DoneUpToHead(s: State)
    requires WellFormed(s)
  {
    var n, cur := |s.desc|, if s.phase == Idle then s.current else s.cur;
    && (forall i :: 0 <= i < n ==> (s.desc[i].done <==> InRound(cur, s.head, i)))
    && s.tail == (if cur == 0 then n - 1 else cur - 1)
    && (s.head == s.tail <==> |s.arrived| - |s.delivered| == n - 1)
  }

  lemma DoneAt(s: State, i: nat)
    requires Inv(s) && (s.phase == Test || s.phase == Idle) && i < |s.desc|
    ensures s.desc[i].done <==> InRound(if s.phase == Idle then s.current else s.cur, s.head, i)
  {
    var n, x, a := |s.desc|, Cleared(s), |s.arrived|;
    var j := SlotAt(x, n, i);
    assert HoldsAt(s.desc, s.arrived, x, j);
    SlotDistance(x, a, n);
    SlotDistance(x, j, n);
  }

  // Every run, whenever the driver is at the loop test or between calls.
  lemma RingShape(frames: seq<Frame>, events: seq<Event>)
    requires frames != []
    ensures var s := Execute(Init(frames), events); s.phase == Test || s.phase == Idle ==> DoneUpToHead(s)
  {
    ExecuteKeepsInv(Init(frames), events);
    var s := Execute(Init(frames), events);
    if s.phase == Test || s.phase == Idle {
      forall i | 0 <= i < |s.desc|
        ensures s.desc[i].done <==> InRound(if s.phase == Idle then s.current else s.cur, s.head, i)
      {
        DoneAt(s, i);
      }
      CardStops(s);
      if Cleared(s) > 0 { SlotStep(Cleared(s) - 1, |s.desc|); }
    }
  }

  // ----- one call while the card is quiet -----

  // k steps of the driver alone.
  function DriverSteps(s: State, k: nat): (r: State)
    requires WellFormed(s)
    ensures WellFormed(r)
    decreases k
  {
    if k == 0 then s else DriverSteps(DriverStep(s), k - 1)
  }

  lemma {:induction false} DriverStepsKeepInv(s: State, k: nat)
    requires Inv(s)
    ensures Inv(DriverSteps(s, k))
    decreases k
  {
    if k > 0 {
      DriverKeepsInv(s);
      DriverStepsKeepInv(DriverStep(s), k - 1);
    }
  }

  lemma {:induction false} DriverStepsAdd(s: State, j: nat, k: nat)
    requires WellFormed(s) && j <= k
    ensures DriverSteps(s, k) == DriverSteps(DriverSteps(s, j), k - j)
    decreases j
  {
    if j > 0 { DriverStepsAdd(DriverStep(s), j - 1, k - 1); }
  }

  // The number of frames after which a call stops: with no maximum, the 16-bit count runs through
  // all its values before it is 0 again.
  function Limit(maximum: nat): nat { if maximum == 0 then WORD_SIZE else maximum }

  // One turn of the loop, with a frame to deliver.
  lemma OneTurn(s: State)
    requires WellFormed(s) && s.phase == Test && s.desc[s.cur].done
    ensures var r := DriverSteps(s, 4);
      && r.arrived == s.arrived && r.delivered == s.delivered + [s.desc[s.cur].frame] && |r.desc| == |s.desc|
      && r.maximum == s.maximum && r.count == (s.count + 1) % WORD_SIZE
      && r.phase == if r.count == s.maximum then Store else Test
  {
    var s1 := DriverStep(s);
    var s2 := DriverStep(s1);
    var s3 := DriverStep(s2);
    assert DriverSteps(s, 4) == DriverSteps(s2, 2) == DriverStep(s3);
  }

  lemma LastSteps(s: State)
    requires WellFormed(s) && (s.phase == Store || (s.phase == Test && !s.desc[s.cur].done))
    ensures var r := DriverSteps(s, 2); r.phase == Idle && r.arrived == s.arrived && r.delivered == s.delivered
  {
    assert DriverSteps(s, 2) == DriverStep(DriverStep(s));
  }

  // At the loop test the driver sees a finished descriptor exactly when a frame is waiting, and
  // then it is the oldest one.
  lemma TestSees(s: State)
    requires Inv(s) && s.phase == Test
    ensures s.desc[s.cur].done <==> |s.delivered| < |s.arrived|
    ensures |s.delivered| < |s.arrived| ==> s.delivered + [s.desc[s.cur].frame] == s.arrived[..|s.delivered| + 1]
  {
    assert HoldsAt(s.desc, s.arrived, |s.delivered|, |s.delivered|);
  }

  function Turns(s: State): nat
    requires |s.delivered| <= |s.arrived| && s.count <= Limit(s.maximum)
  {
    Min(|s.arrived| - |s.delivered|, Limit(s.maximum) - s.count)
  }

  // One turn as seen from the rest of the run.
  lemma TurnOfCall(s: State, k: nat) returns (t: State)
    requires Inv(s) && s.phase == Test && |s.delivered| < |s.arrived| && s.maximum < WORD_SIZE
    requires s.count < Limit(s.maximum) && 4 <= k
    ensures Inv(t) && DriverSteps(s, k) == DriverSteps(t, k - 4)
    ensures t.arrived == s.arrived && |t.delivered| == |s.delivered| + 1 && t.maximum == s.maximum
    ensures if s.count + 1 == Limit(s.maximum) then t.phase == Store else t.phase == Test && t.count == s.count + 1
  {
    TestSees(s);
    OneTurn(s);
    t := DriverSteps(s, 4);
    DriverStepsKeepInv(s, 4);
    DriverStepsAdd(s, 4, k);
  }

  // The rest of a call, from the loop test on.
  lemma {:induction false} RestOfCall(s: State, k: nat)
    requires Inv(s) && s.phase == Test && s.maximum < WORD_SIZE && s.count < Limit(s.maximum) && k == 4 * Turns(s) + 2
    ensures var r := DriverSteps(s, k);
      r.phase == Idle && r.arrived == s.arrived && r.delivered == s.arrived[..|s.delivered| + Turns(s)]
    decreases |s.arrived| - |s.delivered|
  {
    if Turns(s) == 0 {
      TestSees(s);
      LastSteps(s);
    } else {
      var t := TurnOfCall(s, k);
      if t.phase == Store { LastSteps(t); } else { RestOfCall(t, k - 4); }
    }
  }

  // A call that no arrival disturbs delivers everything that is waiting, up to its limit.
  lemma CallDelivers(s: State, maximum: nat)
    requires Inv(s) && s.phase == Idle && maximum < WORD_SIZE
    ensures var turns := Min(|s.arrived| - |s.delivered|, Limit(maximum));
      var r := DriverSteps(Next(s, Call(maximum)), 4 * turns + 2);
      && r.phase == Idle && r.arrived == s.arrived && r.delivered == s.arrived[..|s.delivered| + turns]
      && (maximum == 0 && |s.desc| <= WORD_SIZE ==> r.delivered == r.arrived)
  {
    NextKeepsInv(s, Call(maximum));
    RestOfCall(Next(s, Call(maximum)), 4 * Min(|s.arrived| - |s.delivered|, Limit(maximum)) + 2);
  }

  // ----- one call among arrivals -----

  // The driver stays inside EthReceiveFrame.
  predicate Busy(s: State, events: seq<Event>)
    requires WellFormed(s)
    decreases |events|
  {
    s.phase != Idle && (events != [] ==> Busy(Next(s, events[0]), events[1..]))
  }

  // A call that began with `before` frames delivered has counted those delivered since.
  predicate Counts(s: State, before: nat, maximum: nat)
  {
    && s.maximum == maximum < WORD_SIZE && before <= |s.delivered| <= before + Limit(maximum)
    && (s.phase == Test || s.phase == Notify ==> s.count == |s.delivered| - before < Limit(maximum))
    && (s.phase == Clear || s.phase == SetTail ==> s.count + 1 == |s.delivered| - before)
  }

  lemma {:induction false} BusyCounts(s: State, before: nat, maximum: nat, events: seq<Event>)
    requires WellFormed(s) && Counts(s, before, maximum) && Busy(s, events)
    ensures Counts(Execute(s, events), before, maximum)
    decreases |events|
  {
    if events != [] {
      StepCounts(s, before, maximum, events[0]);
      BusyCounts(Next(s, events[0]), before, maximum, events[1..]);
    }
  }

  lemma StepCounts(s: State, before: nat, maximum: nat, e: Event)
    requires WellFormed(s) && Counts(s, before, maximum) && s.phase != Idle
    ensures Counts(Next(s, e), before, maximum)
    ensures s.phase == SetTail && e == Driver ==>
      (Next(s, e).phase == Store <==> |s.delivered| - before == Limit(maximum))
  {
    if s.phase == SetTail { CountWraps(s.count, maximum); }
  }

  // The 16-bit count meets the maximum exactly at the limit.
  lemma CountWraps(count: nat, maximum: nat)
    requires count < Limit(maximum) && maximum < WORD_SIZE
    ensures (count + 1) % WORD_SIZE == maximum <==> count + 1 == Limit(maximum)
    ensures count + 1 < Limit(maximum) ==> (count + 1) % WORD_SIZE == count + 1
  {
  }

  // Every interleaving of arrivals with a call: it never delivers more than its limit, and it leaves
  // its loop exactly when no frame is waiting at the test, or when it has delivered that many.
  lemma CallEnds(s: State, maximum: nat, events: seq<Event>, e: Event)
    requires Inv(s) && s.phase == Idle && maximum < WORD_SIZE && Busy(Next(s, Call(maximum)), events)
    ensures var t := Execute(Next(s, Call(maximum)), events);
      var delivered := |t.delivered| - |s.delivered|;
      && 0 <= delivered <= Limit(maximum)
      && (t.phase != Store ==>
            (Next(t, e).phase == Store <==>
              && e == Driver
              && (|| (t.phase == Test && |t.delivered| == |t.arrived|)
                  || (t.phase == SetTail && delivered == Limit(maximum)))))
  {
    var c := Next(s, Call(maximum));
    var t := Execute(c, events);
    NextKeepsInv(s, Call(maximum));
    ExecuteKeepsInv(c, events);
    BusyCounts(c, |s.delivered|, maximum, events);
    BusyToTheEnd(c, events);
    StepCounts(t, |s.delivered|, maximum, e);
    if t.phase == Test { TestSees(t); }
  }

  lemma {:induction false} BusyToTheEnd(s: State, events: seq<Event>)
    requires WellFormed(s) && Busy(s, events)
    ensures Execute(s, events).phase != Idle
    decreases |events|
  {
    if events != [] { BusyToTheEnd(Next(s, events[0]), events[1..]); }
  }

  function DriverEvents(k: nat): seq<Event> { if k == 0 then [] else [Driver] + DriverEvents(k - 1) }

  function Round(frame: Frame): seq<Event> { [Wire(frame)] + DriverEvents(4) }

  // k times: a frame arrives, and the driver makes one turn of its loop.
  function Rounds(frame: Frame, k: nat): seq<Event>
  {
    if k == 0 then [] else Round(frame) + Rounds(frame, k - 1)
  }

  lemma {:induction false} ExecuteAppend(s: State, a: seq<Event>, b: seq<Event>)
    requires WellFormed(s)
    ensures Execute(s, a + b) == Execute(Execute(s, a), b)
    decreases |a|
  {
    if a == [] {
      assert a + b == b;
    } else {
      assert (a + b)[1..] == a[1..] + b;
      ExecuteAppend(Next(s, a[0]), a[1..], b);
    }
  }

  // At the loop test, everything delivered.
  ghost predicate CaughtUp(s: State)
  {
    && Inv(s) && s.phase == Test && |s.delivered| == |s.arrived| && 2 <= |s.desc|
    && s.maximum < WORD_SIZE && s.count < Limit(s.maximum)
  }

  lemma OneRound(s: State, frame: Frame) returns (t: State)
    requires CaughtUp(s)
    ensures t == Execute(s, Round(frame)) && Inv(t) && |t.desc| == |s.desc|
    ensures |t.delivered| == |t.arrived| == |s.delivered| + 1 && t.maximum == s.maximum
    ensures if s.count + 1 == Limit(s.maximum) then t.phase == Store else t.phase == Test && t.count == s.count + 1
  {
    var a := Arrive(s, frame);
    CardStops(s);
    ArriveKeepsInv(s, frame);
    t := TurnOfCall(a, 4);
    assert Round(frame)[1..] == DriverEvents(4);
    DriverTurns(a, 4);
    DriverStepsDesc(a, 4);
  }

  lemma {:induction false} DriverTurns(s: State, k: nat)
    requires WellFormed(s)
    ensures Execute(s, DriverEvents(k)) == DriverSteps(s, k)
    decreases k
  {
    if k > 0 {
      assert DriverEvents(k)[1..] == DriverEvents(k - 1);
      DriverTurns(DriverStep(s), k - 1);
    }
  }

  lemma {:induction false} DriverStepsDesc(s: State, k: nat)
    requires WellFormed(s)
    ensures |DriverSteps(s, k).desc| == |s.desc|
    decreases k
  {
    if k > 0 { DriverStepsDesc(DriverStep(s), k - 1); }
  }

  lemma {:induction false} ManyRounds(s: State, frame: Frame, k: nat)
    requires CaughtUp(s) && 0 < k && s.count + k == Limit(s.maximum)
    ensures var r := Execute(s, Rounds(frame, k));
      Inv(r) && r.phase == Store && |r.delivered| == |r.arrived| == |s.delivered| + k && |r.desc| == |s.desc|
    decreases k
  {
    var t := OneRound(s, frame);
    ExecuteAppend(s, Round(frame), Rounds(frame, k - 1));
    if 1 < k { ManyRounds(t, frame, k - 1); }
  }

  // On every ring of at least two descriptors some run takes a call to its limit: one without a maximum
  // returns after 65536 frames although one more is waiting.
  lemma LimitIsReached(frames: seq<Frame>, frame: Frame, maximum: nat)
    requires 2 <= |frames| && maximum < WORD_SIZE
    ensures var r := Execute(Init(frames), [Call(maximum)] + Rounds(frame, Limit(maximum)) + [Wire(frame), Driver]);
      r.phase == Idle && |r.delivered| == Limit(maximum) && |r.arrived| == Limit(maximum) + 1
  {
    var s := Init(frames);
    var c := Next(s, Call(maximum));
    var k := Limit(maximum);
    NextKeepsInv(s, Call(maximum));
    ManyRounds(c, frame, k);
    var t := Execute(c, Rounds(frame, k));
    ExecuteAppend(s, [Call(maximum)] + Rounds(frame, k), [Wire(frame), Driver]);
    ExecuteAppend(s, [Call(maximum)], Rounds(frame, k));
    assert [Call(maximum)][1..] == [] && [Wire(frame), Driver][1..] == [Driver] && [Driver][1..] == [];
    assert Execute(s, [Call(maximum)]) == c;
    assert Execute(t, [Wire(frame), Driver]) == DriverStep(Arrive(t, frame));
    CardStops(t);
  }
}
