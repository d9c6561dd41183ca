/** The parallel dial loop (dial.rs, `wait_for_answer`) against an arbitrary environment,
    and how `exec` settles the legs afterwards. */
module DialWait {

  datatype ChannelState = Down | Reserved | OffHook | OutboundDialing | Ring | RemoteRinging | Up | LineBusy
                        | DialingOffHook | PreRing | Mute

  datatype HangupCause = UserBusy | NormalCircuitCongestion | SwitchCongestion | OtherCause(code: nat)

  datatype Observation = Observation(state: ChannelState, cause: HangupCause)

  datatype LegState = Dialing | Ringing | Answered | Busy | Congestion | Unavailable | HungUp

  datatype DialResult = AnsweredBy(leg: nat) | AllBusy | AllCongestion | AllUnavailable | Timeout | CallerHangup

  datatype DialStatus = Answer | BusyStatus | NoAnswer | Cancel | CongestionStatus | ChanUnavail

  /** What each poll finds: the state and hangup cause of leg `i` in sweep `k`, whether the
      caller is gone by then, and how many milliseconds have passed. */
  datatype Environment = Environment(observe: (nat, nat) -> Observation, hangup: nat -> bool, elapsed: nat -> nat)

  const POLL_MS := 50

  /** Each poll comes at least the poll interval after the one before. */
  ghost predicate Ticks(env: Environment) {
    forall k: nat :: env.elapsed(k) + POLL_MS <= env.elapsed(k + 1)
  }

  // ----- One leg -----

  predicate InProgress(s: LegState) { s.Dialing? || s.Ringing? }

  /** An in-progress leg after one look at its channel. */
  function Observed(s: LegState, o: Observation): LegState {
    match o.state
    case Up => Answered
    case RemoteRinging => Ringing
    case LineBusy => Busy
    case Down =>
      (match o.cause
       case UserBusy => Busy
       case NormalCircuitCongestion => Congestion
       case SwitchCongestion => Congestion
       case OtherCause(_) => Unavailable)
    case _ => s
  }

  /** Leg `i` after `k` sweeps, started in state `s`. */
  function LegAfter(env: Environment, s: LegState, i: nat, k: nat): LegState {
    if k == 0 then s
    else
      var before := LegAfter(env, s, i, k - 1);
      if InProgress(before) then Observed(before, env.observe(k - 1, i)) else before
  }

  predicate Decisive(o: Observation) {
    o.state.Up? || o.state.LineBusy? || o.state.Down?
  }

  /** A leg's fate is its own first decisive observation, whatever the other legs do. */
  lemma {:induction false} FirstDecisiveDecides(env: Environment, s: LegState, i: nat, k: nat, j: nat)
    requires InProgress(s) && j < k
    requires Decisive(env.observe(j, i)) && forall h: nat :: h < j ==> !Decisive(env.observe(h, i))
    ensures LegAfter(env, s, i, k) == Observed(Dialing, env.observe(j, i))
    ensures !InProgress(LegAfter(env, s, i, k))
  {
    if k == j + 1 {
      UndecidedInProgress(env, s, i, j);
    } else {
      FirstDecisiveDecides(env, s, i, k - 1, j);
    }
  }

  lemma {:induction false} UndecidedInProgress(env: Environment, s: LegState, i: nat, k: nat)
    requires InProgress(s) && forall h: nat :: h < k ==> !Decisive(env.observe(h, i))
    ensures InProgress(LegAfter(env, s, i, k))
  {
    if k > 0 {
      UndecidedInProgress(env, s, i, k - 1);
    }
  }

  function Rank(s: LegState): nat {
    if s.Dialing? then 0 else if s.Ringing? then 1 else 2
  }

  /** Leg states only move forward, and a settled leg never changes. */
  lemma {:induction false} LegsMoveForward(env: Environment, s: LegState, i: nat, j: nat, k: nat)
    requires j <= k
    ensures Rank(LegAfter(env, s, i, j)) <= Rank(LegAfter(env, s, i, k))
    ensures !InProgress(LegAfter(env, s, i, j)) ==> LegAfter(env, s, i, k) == LegAfter(env, s, i, j)
    decreases k
  {
    if j < k {
      LegsMoveForward(env, s, i, j, k - 1);
    }
  }

  // ----- The loop -----

  /** Leg `i` is up, or answered before, when sweep `k` looks at it. */
  predicate AnsweredIn(env: Environment, init: seq<LegState>, i: nat, k: nat)
    requires i < |init|
  {
    LegAfter(env, init[i], i, k + 1).Answered?
  }

  /** Nothing ends the loop in sweep `k`: the caller stays, time is left, some leg is in
      progress, and the sweep sees no answer. */
  ghost predicate GoesOn(env: Environment, init: seq<LegState>, timeout: nat, k: nat) {
    && !env.hangup(k) && env.elapsed(k) < timeout
    && (exists i: nat :: i < |init| && InProgress(LegAfter(env, init[i], i, k)))
    && (forall i: nat :: i < |init| ==> !AnsweredIn(env, init, i, k))
  }

  ghost predicate StillWaiting(env: Environment, init: seq<LegState>, timeout: nat, k: nat) {
    forall h: nat :: h < k ==> GoesOn(env, init, timeout, h)
  }

  /** What each result means, in terms of what the environment showed. `k` is the number
      of the poll that produced it. */
  ghost predicate Explains(env: Environment, init: seq<LegState>, timeout: nat, k: nat, result: DialResult) {
    && StillWaiting(env, init, timeout, k)
    && (result.CallerHangup? <==> env.hangup(k))
    && (result.Timeout? <==> !env.hangup(k) && env.elapsed(k) >= timeout)
    && match result
       case AnsweredBy(a) =>
         && a < |init| && AnsweredIn(env, init, a, k)
         && forall i: nat :: i < a ==> !AnsweredIn(env, init, i, k)
       case AllBusy => forall i: nat :: i < |init| ==> LegAfter(env, init[i], i, k).Busy?
       case AllCongestion =>
         && init != []
         && forall i: nat :: i < |init| ==> LegAfter(env, init[i], i, k).Congestion?
       case AllUnavailable =>
         && (forall i: nat :: i < |init| ==>
               !InProgress(LegAfter(env, init[i], i, k)) && !LegAfter(env, init[i], i, k).Answered?)
         && (exists i: nat :: i < |init| && !LegAfter(env, init[i], i, k).Busy?)
         && (exists i: nat :: i < |init| && !LegAfter(env, init[i], i, k).Congestion?)
       case _ => true
  }

  /** How many polls a leg has been through: the one with an answer stops there. */
  function PollsSeen(result: DialResult, i: nat, turn: nat): nat {
    if result.AnsweredBy? && i <= result.leg then turn + 1 else turn
  }

  method WaitForAnswer(legs: array<LegState>, env: Environment, timeout: nat)
      returns (result: DialResult, turn: nat)
    requires Ticks(env)
    modifies legs
    ensures Explains(env, old(legs[..]), timeout, turn, result)
    ensures forall i: nat :: i < legs.Length ==>
              legs[i] == LegAfter(env, old(legs[i]), i, PollsSeen(result, i, turn))
  {
    hide LegAfter;
    ghost var init := legs[..];
    turn := 0;
    LegsAtStart(env, init);
    while true
      invariant legs.Length == |init| && init == old(legs[..])
      invariant StillWaiting(env, init, timeout, turn)
      invariant forall i: nat :: i < |init| ==> legs[i] == LegAfter(env, init[i], i, turn)
      decreases timeout - env.elapsed(turn)
    {
      if env.hangup(turn) {
        return CallerHangup, turn;
      }
      if env.elapsed(turn) >= timeout {
        return Timeout, turn;
      }
      var anyDialing, allBusy, allCongestion := false, true, true;
      for i := 0 to legs.Length
        invariant forall j: nat :: j < i ==> legs[j] == LegAfter(env, init[j], j, turn + 1)
        invariant forall j: nat :: i <= j < |init| ==> legs[j] == LegAfter(env, init[j], j, turn)
        invariant forall j: nat :: j < i ==> !AnsweredIn(env, init, j, turn)
        invariant anyDialing <==> exists j: nat :: j < i && InProgress(LegAfter(env, init[j], j, turn))
        invariant allBusy <==> forall j: nat :: j < i ==> LegAfter(env, init[j], j, turn).Busy?
        invariant allCongestion <==> forall j: nat :: j < i ==> LegAfter(env, init[j], j, turn).Congestion?
      {
        LegStep(env, init[i], i, turn);
        match legs[i]
        case Dialing | Ringing =>
          anyDialing, allBusy, allCongestion := true, false, false;
          var o := env.observe(turn, i);
          match o.state {
            case Up =>
              legs[i] := Answered;
              return AnsweredBy(i), turn;
            case RemoteRinging =>
              if legs[i].Dialing? {
                legs[i] := Ringing;
              }
            case LineBusy =>
              legs[i] := Busy;
            case Down =>
              match o.cause {
                case UserBusy => legs[i] := Busy;
                case NormalCircuitCongestion | SwitchCongestion => legs[i] := Congestion;
                case OtherCause(_) => legs[i] := Unavailable;
              }
            case _ =>
          }
        case Answered =>
          return AnsweredBy(i), turn;
        case Busy =>
          allCongestion := false;
        case Congestion =>
          allBusy := false;
        case Unavailable | HungUp =>
          allBusy, allCongestion := false, false;
      }
      if !anyDialing {
        Settled(env, init, turn);
        if allBusy {
          return AllBusy, turn;
        }
        if allCongestion {
          return AllCongestion, turn;
        }
        return AllUnavailable, turn;
      }
      assert GoesOn(env, init, timeout, turn);
      assert env.elapsed(turn) + POLL_MS <= env.elapsed(turn + 1);
      turn := turn + 1;
    }
  }

  lemma LegsAtStart(env: Environment, init: seq<LegState>)
    ensures forall i: nat :: i < |init| ==> LegAfter(env, init[i], i, 0) == init[i]
  {
  }

  lemma LegStep(env: Environment, s: LegState, i: nat, k: nat)
    ensures var before := LegAfter(env, s, i, k);
            LegAfter(env, s, i, k + 1) == if InProgress(before) then Observed(before, env.observe(k, i)) else before
  {
  }

  lemma Settled(env: Environment, init: seq<LegState>, k: nat)
    requires forall i: nat :: i < |init| ==> !InProgress(LegAfter(env, init[i], i, k))
    ensures forall i: nat :: i < |init| ==> LegAfter(env, init[i], i, k + 1) == LegAfter(env, init[i], i, k)
    ensures forall i: nat :: i < |init| ==> (AnsweredIn(env, init, i, k) <==> LegAfter(env, init[i], i, k).Answered?)
  {
  }

  /** The result, and the poll that gives it, are determined by what the environment
      shows: no other result explains the same run. */
  lemma {:induction false} ResultIsDetermined(env: Environment, init: seq<LegState>, timeout: nat,
                                              k: nat, r: DialResult, k': nat, r': DialResult)
    requires Explains(env, init, timeout, k, r) && Explains(env, init, timeout, k', r')
    ensures k == k' && r == r'
  {
    hide LegAfter;
    if k < k' {
      LoopEnds(env, init, timeout, k, r);
    } else if k' < k {
      LoopEnds(env, init, timeout, k', r');
    } else {
      SameTurn(env, init, timeout, k, r, r');
    }
  }

  lemma {:induction false} SameTurn(env: Environment, init: seq<LegState>, timeout: nat, k: nat,
                                    r: DialResult, r': DialResult)
    requires Explains(env, init, timeout, k, r) && Explains(env, init, timeout, k, r')
    ensures r == r'
  {
    hide LegAfter;
    if r.AllBusy? || r.AllCongestion? || r.AllUnavailable? {
      Settling(env, init, timeout, k, r);
    }
    if r'.AllBusy? || r'.AllCongestion? || r'.AllUnavailable? {
      Settling(env, init, timeout, k, r');
    }
    if init != [] {
      var first := LegAfter(env, init[0], 0, k);
      assert !(first.Busy? && first.Congestion?);
    }
  }

  lemma {:induction false} LoopEnds(env: Environment, init: seq<LegState>, timeout: nat, k: nat, r: DialResult)
    requires Explains(env, init, timeout, k, r)
    ensures !GoesOn(env, init, timeout, k)
  {
  }

  lemma {:induction false} Settling(env: Environment, init: seq<LegState>, timeout: nat, k: nat, r: DialResult)
    requires Explains(env, init, timeout, k, r)
    requires r.AllBusy? || r.AllCongestion? || r.AllUnavailable?
    ensures forall i: nat :: i < |init| ==> !AnsweredIn(env, init, i, k)
  {
    Settled(env, init, k);
  }

  /** The winner was seen Up by that very sweep, and nothing decisive was seen of it before. */
  lemma {:induction false} WinnerWasUp(env: Environment, init: seq<LegState>, timeout: nat, k: nat, a: nat)
    requires Explains(env, init, timeout, k, AnsweredBy(a)) && !init[a].Answered?
    ensures env.observe(k, a).state.Up?
    ensures forall h: nat :: h < k ==> !Decisive(env.observe(h, a))
  {
    var s := init[a];
    if k > 0 {
      assert GoesOn(env, init, timeout, k - 1);
      assert !AnsweredIn(env, init, a, k - 1);
    }
    assert InProgress(LegAfter(env, s, a, k));
    InProgressUndecided(env, s, a, k);
  }

  lemma {:induction false} InProgressUndecided(env: Environment, s: LegState, i: nat, k: nat)
    requires InProgress(LegAfter(env, s, i, k))
    ensures forall h: nat :: h < k ==> !Decisive(env.observe(h, i))
  {
    if k > 0 {
      InProgressUndecided(env, s, i, k - 1);
    }
  }

  /** A loop with a leg that stays in progress ends no later than the timeout. */
  lemma {:induction false} EndsByTimeout(env: Environment, init: seq<LegState>, timeout: nat, k: nat, r: DialResult)
    requires Ticks(env) && Explains(env, init, timeout, k, r)
    ensures k > 0 ==> env.elapsed(k - 1) < timeout && POLL_MS * (k - 1) < timeout
  {
    if k > 0 {
      assert GoesOn(env, init, timeout, k - 1);
      ElapsedGrows(env, k - 1);
    }
  }

  lemma {:induction false} ElapsedGrows(env: Environment, k: nat)
    requires Ticks(env)
    ensures POLL_MS * k <= env.elapsed(k)
  {
    if k > 0 {
      ElapsedGrows(env, k - 1);
      assert env.elapsed(k - 1) + POLL_MS <= env.elapsed(k - 1 + 1);
    }
  }

  // ----- The result, from the observations alone -----

  /** Sweep `j` is the first to see something decisive of leg `i`. */
  ghost predicate FirstSeen(env: Environment, i: nat, j: nat) {
    Decisive(env.observe(j, i)) && forall h: nat :: h < j ==> !Decisive(env.observe(h, i))
  }

  /** The line is busy: the channel says so, or it went down because the user is busy. */
  predicate SaysBusy(o: Observation) { o.state == LineBusy || (o.state == Down && o.cause == UserBusy) }

  /** The network is congested: the channel went down for one of the two causes. */
  predicate SaysCongestion(o: Observation) {
    o.state == Down && (o.cause == NormalCircuitCongestion || o.cause == SwitchCongestion)
  }

  ghost predicate SeenBusy(env: Environment, i: nat, k: nat) {
    exists j: nat :: j < k && FirstSeen(env, i, j) && SaysBusy(env.observe(j, i))
  }

  ghost predicate SeenCongestion(env: Environment, i: nat, k: nat) {
    exists j: nat :: j < k && FirstSeen(env, i, j) && SaysCongestion(env.observe(j, i))
  }

  ghost predicate SeenGone(env: Environment, i: nat, k: nat) {
    exists j: nat :: j < k && FirstSeen(env, i, j) && env.observe(j, i).state != Up
  }

  /** Where `k` sweeps leave a leg that was dialing or ringing. */
  lemma {:induction false} LegFromObservations(env: Environment, s: LegState, i: nat, k: nat)
    requires InProgress(s)
    ensures InProgress(LegAfter(env, s, i, k)) <==> forall h: nat :: h < k ==> !Decisive(env.observe(h, i))
    ensures LegAfter(env, s, i, k).Answered? <==>
            exists j: nat :: j < k && FirstSeen(env, i, j) && env.observe(j, i).state == Up
    ensures LegAfter(env, s, i, k).Busy? <==> SeenBusy(env, i, k)
    ensures LegAfter(env, s, i, k).Congestion? <==> SeenCongestion(env, i, k)
    ensures !InProgress(LegAfter(env, s, i, k)) && !LegAfter(env, s, i, k).Answered? <==> SeenGone(env, i, k)
  {
    if j: nat :| j < k && FirstSeen(env, i, j) {
      FirstDecisiveDecides(env, s, i, k, j);
      OneFirst(env, i, j);
    } else {
      NoneSeen(env, i, k);
      UndecidedInProgress(env, s, i, k);
    }
  }

  lemma OneFirst(env: Environment, i: nat, j: nat)
    requires FirstSeen(env, i, j)
    ensures forall h: nat :: FirstSeen(env, i, h) ==> h == j
  {
  }

  lemma {:induction false} NoneSeen(env: Environment, i: nat, k: nat)
    requires forall j: nat :: j < k ==> !FirstSeen(env, i, j)
    ensures forall h: nat :: h < k ==> !Decisive(env.observe(h, i))
  {
    if k > 0 {
      NoneSeen(env, i, k - 1);
      assert !FirstSeen(env, i, k - 1);
    }
  }

  ghost predicate Undecided(env: Environment, i: nat, k: nat) {
    forall h: nat :: h < k ==> !Decisive(env.observe(h, i))
  }

  ghost predicate SeenRinging(env: Environment, i: nat, k: nat) {
    exists h: nat :: h < k && env.observe(h, i).state == RemoteRinging
  }

  lemma OneSweepMore(env: Environment, i: nat, k: nat)
    ensures Undecided(env, i, k + 1) <==> Undecided(env, i, k) && !Decisive(env.observe(k, i))
    ensures SeenRinging(env, i, k + 1) <==> SeenRinging(env, i, k) || env.observe(k, i).state == RemoteRinging
  {
  }

  /** A dialing leg rings exactly if it was seen ringing and nothing decisive was. */
  lemma {:induction false} RingsExactly(env: Environment, i: nat, k: nat)
    ensures LegAfter(env, Dialing, i, k).Ringing? <==> Undecided(env, i, k) && SeenRinging(env, i, k)
    ensures LegAfter(env, Dialing, i, k).Dialing? <==> Undecided(env, i, k) && !SeenRinging(env, i, k)
  {
    if k > 0 {
      RingsExactly(env, i, k - 1);
      OneSweepMore(env, i, k - 1);
      LegStep(env, Dialing, i, k - 1);
      hide LegAfter, Undecided, SeenRinging;
    }
  }

  /** The caller is there and time is left at poll `k`. */
  predicate Live(env: Environment, timeout: nat, k: nat) { !env.hangup(k) && env.elapsed(k) < timeout }

  /** The result of dialing any number of legs, from what was seen of them: who answered
      first, all busy, all congested, or any other mix with nothing left to wait for. */
  lemma {:induction false} ResultFromObservations(env: Environment, init: seq<LegState>, timeout: nat, k: nat,
                                                  r: DialResult)
    requires Explains(env, init, timeout, k, r) && init != []
    requires forall i :: 0 <= i < |init| ==> InProgress(init[i])
    ensures r.CallerHangup? <==> env.hangup(k)
    ensures r.Timeout? <==> !env.hangup(k) && env.elapsed(k) >= timeout
    ensures r.AllBusy? <==> Live(env, timeout, k) && forall i: nat :: i < |init| ==> SeenBusy(env, i, k)
    ensures r.AllCongestion? <==> Live(env, timeout, k) && forall i: nat :: i < |init| ==> SeenCongestion(env, i, k)
    ensures r.AllUnavailable? <==>
            && Live(env, timeout, k) && (forall i: nat :: i < |init| ==> SeenGone(env, i, k))
            && (exists i: nat :: i < |init| && !SeenBusy(env, i, k))
            && (exists i: nat :: i < |init| && !SeenCongestion(env, i, k))
    ensures forall a: nat :: r == AnsweredBy(a) ==>
              && a < |init| && FirstSeen(env, a, k) && env.observe(k, a).state == Up
              && forall i: nat :: i < a ==> !(FirstSeen(env, i, k) && env.observe(k, i).state == Up)
  {
    forall i: nat | i < |init|
      ensures LegAfter(env, init[i], i, k).Busy? <==> SeenBusy(env, i, k)
      ensures LegAfter(env, init[i], i, k).Congestion? <==> SeenCongestion(env, i, k)
      ensures !InProgress(LegAfter(env, init[i], i, k)) && !LegAfter(env, init[i], i, k).Answered? <==>
              SeenGone(env, i, k)
    {
      LegFromObservations(env, init[i], i, k);
    }
    hide SeenBusy, SeenCongestion, SeenGone;
    if r.AnsweredBy? {
      AnswerFromObservations(env, init, timeout, k, r.leg);
    }
    AnsweredIsNotSettled(env, init, timeout, k, r);
    hide LegAfter;
    var some := if r.AnsweredBy? then r.leg else 0;
    var seen := LegAfter(env, init[some], some, k);
    assert seen.Busy? <==> SeenBusy(env, some, k);
    assert seen.Congestion? <==> SeenCongestion(env, some, k);
  }

  lemma {:induction false} AnswerFromObservations(env: Environment, init: seq<LegState>, timeout: nat, k: nat, a: nat)
    requires Explains(env, init, timeout, k, AnsweredBy(a))
    requires forall i :: 0 <= i < |init| ==> InProgress(init[i])
    ensures FirstSeen(env, a, k) && env.observe(k, a).state == Up
    ensures forall i: nat :: i < a ==> !(FirstSeen(env, i, k) && env.observe(k, i).state == Up)
  {
    WinnerWasUp(env, init, timeout, k, a);
    forall i: nat | i < a
      ensures !(FirstSeen(env, i, k) && env.observe(k, i).state == Up)
    {
      LegFromObservations(env, init[i], i, k + 1);
      assert !AnsweredIn(env, init, i, k);
    }
  }

  /** An answer comes from a leg that was in progress, so nothing was settled before it. */
  lemma {:induction false} AnsweredIsNotSettled(env: Environment, init: seq<LegState>, timeout: nat, k: nat,
                                                r: DialResult)
    requires Explains(env, init, timeout, k, r) && forall i :: 0 <= i < |init| ==> InProgress(init[i])
    ensures r.AnsweredBy? ==> InProgress(LegAfter(env, init[r.leg], r.leg, k))
  {
    if r.AnsweredBy? {
      var a := r.leg;
      if k > 0 {
        assert GoesOn(env, init, timeout, k - 1);
        assert !AnsweredIn(env, init, a, k - 1);
      }
    }
  }

  // ----- Afterwards -----

  /** `hangup_all_legs` */
  method HangUpAll(legs: array<LegState>)
    modifies legs
    ensures forall i :: 0 <= i < legs.Length ==> legs[i].HungUp?
  {
    for i := 0 to legs.Length
      invariant forall j :: 0 <= j < i ==> legs[j].HungUp?
    {
      if !legs[i].HungUp? {
        legs[i] := HungUp;
      }
    }
  }

  /** The result handling of `exec`: one leg survives an answer, none anything else. */
  method Dial(legs: array<LegState>, env: Environment, timeout: nat)
      returns (status: DialStatus, result: DialResult, turn: nat)
    requires Ticks(env)
    modifies legs
    ensures Explains(env, old(legs[..]), timeout, turn, result)
    ensures status.Answer? <==> result.AnsweredBy?
    ensures status.BusyStatus? <==> result.AllBusy?
    ensures status.CongestionStatus? <==> result.AllCongestion?
    ensures status.ChanUnavail? <==> result.AllUnavailable?
    ensures status.NoAnswer? <==> result.Timeout?
    ensures status.Cancel? <==> result.CallerHangup?
    ensures status.Answer? ==>
              && legs[result.leg].Answered?
              && forall i :: 0 <= i < legs.Length && i != result.leg ==> legs[i].HungUp?
    ensures !status.Answer? ==> forall i :: 0 <= i < legs.Length ==> legs[i].HungUp?
  {
    hide LegAfter;
    result, turn := WaitForAnswer(legs, env, timeout);
    match result
    case AnsweredBy(answered) =>
      for i := 0 to legs.Length
        invariant legs[answered].Answered?
        invariant forall j :: 0 <= j < i && j != answered ==> legs[j].HungUp?
      {
        if i != answered && !legs[i].HungUp? {
          legs[i] := HungUp;
        }
      }
      status := Answer;
    case AllBusy =>
      HangUpAll(legs);
      status := BusyStatus;
    case AllCongestion =>
      HangUpAll(legs);
      status := CongestionStatus;
    case AllUnavailable =>
      HangUpAll(legs);
      status := ChanUnavail;
    case Timeout =>
      HangUpAll(legs);
      status := NoAnswer;
    case CallerHangup =>
      HangUpAll(legs);
      status := Cancel;
  }
}
