/** Every interleaving of the tasks of one conference (confbridge.rs), one step per lock:
    joins that check and insert under separate locks, leaves whose end-marked sweep takes a
    lock of its own, kicks of the last joiner that read, kick and refresh under three, and
    kicks, mutes and locks in between. */
module ConferenceRuns {
  import opened Common
  import opened Conference

  /** The conference, the joiners that have passed their check, the channels that have been
      inserted and not yet left, kicked or not, and the leavers that have yet to sweep. */
  datatype Sys = Sys(conf: Conf, joining: Members, inside: set<Id>, sweeps: nat)

  datatype Step =
    | CheckJoin(id: Id, user: Member)
    | Insert(id: Id)
    | LeaveFirst(id: Id, latest: Option<Id>)
    | SweepNonAdmins
    | KickOne(id: Id, latest: Option<Id>)
    | KickEveryone
    | RefreshLast(latest: Option<Id>)
    | Mute(id: Id, muted: bool)
    | Deafen(id: Id)
    | MuteEveryone
    | Lock(locked: bool)

  /** A step can be taken: a channel checks when it is neither joining nor inside, as one
      channel is in one join or leave at a time; at most `limit` joiners are between check and
      insert; and a new latest joiner is one `max_by_key` can return. */
  ghost predicate Enabled(limit: nat, s: Sys, step: Step) {
    var c := s.conf;
    match step
    case CheckJoin(id, user) => id !in s.joining && id !in s.inside && |s.joining| < limit && !user.waiting
    case Insert(id) => id in s.joining && id !in c.members
    case LeaveFirst(id, latest) => id !in s.joining && IsLatest(c.members - {id}, latest)
    case SweepNonAdmins => s.sweeps > 0
    case KickOne(id, latest) => IsLatest(c.members - {id}, latest)
    case RefreshLast(latest) => IsLatest(c.members, latest)
    case _ => true
  }

  function Take(s: Sys, step: Step): Sys {
    var c := s.conf;
    match step
    case CheckJoin(id, user) => if MayJoin(c, user.admin) then s.(joining := s.joining[id := user]) else s
    case Insert(id) =>
      if id in s.joining then
        s.(conf := Enter(c, id, s.joining[id]), joining := s.joining - {id}, inside := s.inside + {id})
      else s
    case LeaveFirst(id, latest) =>
      Sys(Leave(c, id, latest), s.joining, s.inside - {id},
          if AsksForSweep(c, id) then s.sweeps + 1 else s.sweeps)
    case SweepNonAdmins => s.(conf := Sweep(c), sweeps := SaturatingSub(s.sweeps, 1))
    case KickOne(id, latest) => s.(conf := Kick(c, id, latest))
    case KickEveryone => s.(conf := KickAll(c))
    case RefreshLast(latest) => s.(conf := Refresh(c, latest))
    case Mute(id, muted) => s.(conf := SetMuted(c, id, muted))
    case Deafen(id) => s.(conf := ToggleDeaf(c, id))
    case MuteEveryone => s.(conf := ToggleAllMuted(c))
    case Lock(locked) => s.(conf := c.(locked := locked))
  }

  ghost predicate IsRun(settings: Settings, limit: nat, run: seq<Sys>, steps: seq<Step>) {
    && |run| == |steps| + 1
    && run[0] == Sys(Empty(settings), map[], {}, 0)
    && forall i :: 0 <= i < |steps| ==> Enabled(limit, run[i], steps[i]) && run[i + 1] == Take(run[i], steps[i])
  }

  // ----- Redundant state -----

  /** What every interleaving keeps: the bridge carries exactly the members, the marked
      count covers the marked members, and nobody waits while a marked user is counted. */
  ghost predicate Basic(c: Conf) {
    && c.bridge == c.members.Keys
    && |MarkedIds(c.members)| <= c.markedCount
    && (forall k :: k in c.members && c.members[k].waiting ==> c.markedCount == 0 && c.settings.waitForMarked)
  }

  /** How far the marked count exceeds the marked members. */
  ghost function Surplus(c: Conf): int { c.markedCount - |MarkedIds(c.members)| }

  /** Marked members that an end-marked sweep is about to remove. */
  ghost function SweptMarked(c: Conf): set<Id> { NonAdmins(c.members) * MarkedIds(c.members) }

  ghost predicate KeepsMarked(f: Member -> Member) {
    forall m: Member :: f(m).marked == m.marked
  }

  lemma EachKeepsMarked(ms: Members, f: Member -> Member)
    requires KeepsMarked(f)
    ensures MarkedIds(Each(ms, f)) == MarkedIds(ms)
  {
  }

  lemma MarkedWithout(ms: Members, id: Id)
    ensures |MarkedIds(ms - {id})| == |MarkedIds(ms)| - (if id in ms && ms[id].marked then 1 else 0)
  {
    assert MarkedIds(ms - {id}) == MarkedIds(ms) - {id};
  }

  lemma MarkedWithoutAll(ms: Members, out: set<Id>)
    ensures MarkedIds(ms - out) == MarkedIds(ms) - out
    ensures |MarkedIds(ms - out)| == |MarkedIds(ms)| - |out * MarkedIds(ms)|
  {
    assert MarkedIds(ms - out) == MarkedIds(ms) - out;
    assert MarkedIds(ms) == (MarkedIds(ms) - out) + (out * MarkedIds(ms));
  }

  lemma MarkedWith(ms: Members, id: Id, m: Member)
    requires id !in ms
    ensures |MarkedIds(ms[id := m])| == |MarkedIds(ms)| + (if m.marked then 1 else 0)
  {
    assert MarkedIds(ms[id := m]) == if m.marked then MarkedIds(ms) + {id} else MarkedIds(ms);
  }

  lemma {:induction false} EnterIsBasic(c: Conf, id: Id, m: Member)
    requires Basic(c) && id !in c.members && !m.waiting
    ensures Basic(Enter(c, id, m)) && Surplus(Enter(c, id, m)) == Surplus(c)
  {
    hide MarkedIds, Each;
    var waiting := if MustWait(c, m) then Rearm(m) else m;
    var entering := if c.allMuted && !m.admin then waiting.(muted := true) else waiting;
    MarkedWith(c.members, id, entering);
    EachKeepsMarked(c.members[id := entering], Awaken);
    AllAwake(c.members[id := entering]);
  }

  lemma AllAwake(ms: Members)
    ensures forall k :: k in Each(ms, Awaken) ==> !Each(ms, Awaken)[k].waiting
  {
  }

  lemma {:induction false} MarkedGoneIsBasic(c: Conf)
    requires c.bridge == c.members.Keys && |MarkedIds(c.members)| + 1 <= c.markedCount
    requires forall k :: k in c.members ==> !c.members[k].waiting
    ensures Basic(MarkedGone(c)) && Surplus(MarkedGone(c)) == Surplus(c) - 1
  {
    EachKeepsMarked(c.members, Rearm);
  }

  lemma {:induction false} LeaveIsBasic(c: Conf, id: Id, latest: Option<Id>)
    requires Basic(c)
    ensures Basic(Leave(c, id, latest)) && Surplus(Leave(c, id, latest)) == Surplus(c)
  {
    hide MarkedGone;
    MarkedWithout(c.members, id);
    var detached := Detach(c, id, latest);
    assert detached.bridge == detached.members.Keys;
    if LeavesMarked(c, id) {
      assert id in MarkedIds(c.members);
      MarkedGoneIsBasic(detached);
    }
  }

  lemma {:induction false} KickIsBasic(c: Conf, id: Id, latest: Option<Id>)
    requires Basic(c)
    ensures Basic(Kick(c, id, latest)) && Surplus(Kick(c, id, latest)) == Surplus(c)
  {
    MarkedWithout(c.members, id);
    if LeavesMarked(c, id) {
      assert id in MarkedIds(c.members);
    }
  }

  lemma {:induction false} KickAllIsBasic(c: Conf)
    requires Basic(c)
    ensures Basic(KickAll(c)) && Surplus(KickAll(c)) == Surplus(c)
    ensures KickAll(c).markedCount == c.markedCount - |SweptMarked(c)|
  {
    MarkedWithoutAll(c.members, NonAdmins(c.members));
  }

  lemma {:induction false} SweepIsBasic(c: Conf)
    requires Basic(c)
    ensures Basic(Sweep(c)) && Surplus(Sweep(c)) == Surplus(c) + |SweptMarked(c)|
  {
    MarkedWithoutAll(c.members, NonAdmins(c.members));
  }

  /** A change of the members' flags other than marking and waiting is of no concern here. */
  lemma {:induction false} FlagsAreBasic(c: Conf, d: Conf)
    requires Basic(c) && d.members.Keys == c.members.Keys
    requires c.(members := d.members, allMuted := d.allMuted) == d
    requires forall k :: k in c.members ==>
               c.members[k].marked == d.members[k].marked && c.members[k].waiting == d.members[k].waiting
    ensures Basic(d) && Surplus(d) == Surplus(c)
  {
    assert MarkedIds(d.members) == MarkedIds(c.members);
  }

  /** Every step of every task keeps the redundant state in order; only a sweep can make the
      marked count run ahead, by the marked members it removes. */
  lemma {:induction false} StepIsBasic(limit: nat, s: Sys, step: Step)
    requires Basic(s.conf) && Enabled(limit, s, step)
    requires forall id :: id in s.joining ==> !s.joining[id].waiting
    ensures Basic(Take(s, step).conf)
    ensures Surplus(Take(s, step).conf) ==
            Surplus(s.conf) + (if step.SweepNonAdmins? then |SweptMarked(s.conf)| else 0)
    ensures forall id :: id in Take(s, step).joining ==> !Take(s, step).joining[id].waiting
  {
    hide Basic, Surplus, Enter, Leave, Kick, KickAll, Sweep, IsLatest;
    match step
    case CheckJoin(id, user) =>
    case Insert(id) => EnterIsBasic(s.conf, id, s.joining[id]);
    case LeaveFirst(id, latest) => LeaveIsBasic(s.conf, id, latest);
    case SweepNonAdmins => SweepIsBasic(s.conf);
    case KickOne(id, latest) => KickIsBasic(s.conf, id, latest);
    case KickEveryone => KickAllIsBasic(s.conf);
    case RefreshLast(latest) => LastIsOfNoConcern(s.conf, latest);
    case Mute(id, muted) => FlagsAreBasic(s.conf, SetMuted(s.conf, id, muted));
    case Deafen(id) => FlagsAreBasic(s.conf, ToggleDeaf(s.conf, id));
    case MuteEveryone => FlagsAreBasic(s.conf, ToggleAllMuted(s.conf));
    case Lock(locked) => LockIsBasic(s.conf, locked);
  }

  lemma LastIsOfNoConcern(c: Conf, latest: Option<Id>)
    requires Basic(c)
    ensures Basic(Refresh(c, latest)) && Surplus(Refresh(c, latest)) == Surplus(c)
  {
  }

  lemma LockIsBasic(c: Conf, locked: bool)
    requires Basic(c)
    ensures Basic(c.(locked := locked)) && Surplus(c.(locked := locked)) == Surplus(c)
  {
  }

  /** No sweep so far found a marked non-admin. */
  ghost predicate SweepsClean(run: seq<Sys>, steps: seq<Step>, k: nat) {
    forall i :: 0 <= i < k && i < |steps| && i < |run| && steps[i].SweepNonAdmins? ==> SweptMarked(run[i].conf) == {}
  }

  lemma {:induction false} RunIsBasic(settings: Settings, limit: nat, run: seq<Sys>, steps: seq<Step>, k: nat)
    requires IsRun(settings, limit, run, steps) && k < |run|
    ensures Basic(run[k].conf) && (forall id :: id in run[k].joining ==> !run[k].joining[id].waiting)
    ensures Surplus(run[k].conf) == 0 <==> SweepsClean(run, steps, k)
  {
    hide Take, Enabled;
    if k == 0 {
      EmptyIsBasic(settings);
    } else {
      RunIsBasic(settings, limit, run, steps, k - 1);
      StepIsBasic(limit, run[k - 1], steps[k - 1]);
      assert Surplus(run[k - 1].conf) >= 0;
      CleanSoFar(run, steps, k);
      hide Basic, Surplus, SweepsClean, SweptMarked;
    }
  }

  lemma EmptyIsBasic(settings: Settings)
    ensures Basic(Empty(settings)) && Surplus(Empty(settings)) == 0
  {
    assert MarkedIds(map[]) == {};
  }

  lemma CleanSoFar(run: seq<Sys>, steps: seq<Step>, k: nat)
    requires 0 < k < |run| && |run| == |steps| + 1
    ensures SweepsClean(run, steps, k) <==>
            SweepsClean(run, steps, k - 1) &&
            (if steps[k - 1].SweepNonAdmins? then |SweptMarked(run[k - 1].conf)| else 0) == 0
  {
    hide SweptMarked;
  }

  /** In every interleaving the bridge has exactly the members, nobody waits while a marked
      user is counted, and no decrement of the marked count saturates. The count is exactly
      the number of marked members as long as, and only as long as, no sweep has removed one. */
  lemma {:induction false} RedundantStateAgrees(settings: Settings, limit: nat, run: seq<Sys>, steps: seq<Step>, k: nat)
    requires IsRun(settings, limit, run, steps) && k < |run|
    ensures var c := run[k].conf;
            && c.bridge == c.members.Keys
            && (forall id :: id in c.members && c.members[id].waiting ==> c.markedCount == 0)
            && (forall id :: LeavesMarked(c, id) ==> c.markedCount >= 1)
            && |SweptMarked(c)| <= c.markedCount
            && (c.markedCount == |MarkedIds(c.members)| <==> SweepsClean(run, steps, k))
  {
    RunIsBasic(settings, limit, run, steps, k);
    var c := run[k].conf;
    forall id | LeavesMarked(c, id)
      ensures c.markedCount >= 1
    {
      assert id in MarkedIds(c.members);
    }
    MarkedWithoutAll(c.members, NonAdmins(c.members));
  }

  /** A sweep right after the section that asked for it cannot remove a marked user: the
      count it saw reach zero covers all marked members. */
  lemma {:induction false} SweepAtOnceIsClean(c: Conf, id: Id, latest: Option<Id>)
    requires Basic(c) && AsksForSweep(c, id)
    ensures SweptMarked(Leave(c, id, latest)) == {}
    ensures Surplus(LeaveAtOnce(c, id, latest)) == Surplus(c)
  {
    LeaveIsBasic(c, id, latest);
    SweepIsBasic(Leave(c, id, latest));
    assert MarkedIds(Leave(c, id, latest).members) == {};
  }

  /** A marked non-admin is inserted while a sweep is still due. */
  ghost predicate SlipsIn(s: Sys, step: Step) {
    && step.Insert? && s.sweeps > 0 && step.id in s.joining
    && s.joining[step.id].marked && !s.joining[step.id].admin
  }

  /** A due sweep has nobody marked to find. */
  ghost predicate DueSweepsFindNone(s: Sys) {
    s.sweeps > 0 ==> SweptMarked(s.conf) == {}
  }

  /** The members of one conference are among those of another, with the same roles. */
  ghost predicate Among(a: Members, b: Members) {
    forall k :: k in a ==> k in b && a[k].marked == b[k].marked && a[k].admin == b[k].admin
  }

  lemma AmongSwept(c: Conf, d: Conf)
    requires Among(c.members, d.members)
    ensures SweptMarked(c) <= SweptMarked(d)
  {
  }

  lemma LeaveAmong(c: Conf, id: Id, latest: Option<Id>)
    ensures Among(Leave(c, id, latest).members, c.members) && Among(Kick(c, id, latest).members, c.members)
  {
    RestAmong(c, {id});
    RestAmong(c, {});
    assert c.members - {} == c.members;
    RearmedAmong(c.members - {id}, c.members);
    hide Among, Each;
  }

  lemma RearmedAmong(a: Members, b: Members)
    requires Among(a, b)
    ensures Among(Each(a, Rearm), b)
  {
  }

  lemma RestAmong(c: Conf, out: set<Id>)
    ensures Among(c.members - out, c.members)
  {
  }

  lemma FlagsAmong(c: Conf, id: Id, muted: bool)
    ensures Among(SetMuted(c, id, muted).members, c.members)
    ensures Among(ToggleDeaf(c, id).members, c.members) && Among(ToggleAllMuted(c).members, c.members)
  {
  }

  lemma {:induction false} StepsAreAmong(s: Sys, step: Step)
    requires !step.Insert?
    ensures Among(Take(s, step).conf.members, s.conf.members)
  {
    var c := s.conf;
    hide Among, Leave, Kick, SetMuted, ToggleDeaf, ToggleAllMuted, MarkedIds;
    RestAmong(c, {});
    assert c.members - {} == c.members;
    match step
    case CheckJoin(_, _) =>
    case LeaveFirst(id, latest) => LeaveAmong(c, id, latest);
    case SweepNonAdmins => RestAmong(c, NonAdmins(c.members));
    case KickOne(id, latest) => LeaveAmong(c, id, latest);
    case KickEveryone => RestAmong(c, NonAdmins(c.members));
    case RefreshLast(_) =>
    case Mute(id, muted) => FlagsAmong(c, id, muted);
    case Deafen(id) => FlagsAmong(c, id, false);
    case MuteEveryone => FlagsAmong(c, 0, false);
    case Lock(_) =>
  }

  lemma {:induction false} StepKeepsDueSweepsClean(limit: nat, s: Sys, step: Step)
    requires Basic(s.conf) && Enabled(limit, s, step) && DueSweepsFindNone(s) && !SlipsIn(s, step)
    ensures DueSweepsFindNone(Take(s, step))
  {
    if step.Insert? {
      var m := s.joining[step.id];
      assert forall k :: k in Enter(s.conf, step.id, m).members ==>
          (k == step.id || k in s.conf.members)
          && Enter(s.conf, step.id, m).members[k].marked == (if k == step.id then m else s.conf.members[k]).marked
          && Enter(s.conf, step.id, m).members[k].admin == (if k == step.id then m else s.conf.members[k]).admin;
    } else if step.LeaveFirst? && AsksForSweep(s.conf, step.id) {
      SweepAtOnceIsClean(s.conf, step.id, step.latest);
    } else {
      StepsAreAmong(s, step);
      AmongSwept(Take(s, step).conf, s.conf);
      FewerSweeps(s, step);
      hide Take, Enabled, SweptMarked, Basic;
    }
  }

  lemma FewerSweeps(s: Sys, step: Step)
    requires !(step.LeaveFirst? && AsksForSweep(s.conf, step.id))
    ensures Take(s, step).sweeps <= s.sweeps
  {
  }

  /** What joiners can see to: in every run where no marked non-admin is inserted while a
      sweep is due, no sweep meets a marked user, so the marked count is exact throughout. */
  lemma {:induction false} CountIsExact(settings: Settings, limit: nat, run: seq<Sys>, steps: seq<Step>, k: nat)
    requires IsRun(settings, limit, run, steps) && k < |run|
    requires forall i :: 0 <= i < |steps| ==> !SlipsIn(run[i], steps[i])
    ensures DueSweepsFindNone(run[k]) && SweepsClean(run, steps, k)
    ensures run[k].conf.markedCount == |MarkedIds(run[k].conf.members)|
  {
    hide Take, Enabled, SlipsIn, Basic;
    RunIsBasic(settings, limit, run, steps, k);
    if k > 0 {
      CountIsExact(settings, limit, run, steps, k - 1);
      RunIsBasic(settings, limit, run, steps, k - 1);
      StepKeepsDueSweepsClean(limit, run[k - 1], steps[k - 1]);
      CleanSoFar(run, steps, k);
      SweepWasDue(limit, run[k - 1], steps[k - 1]);
      hide SweepsClean, DueSweepsFindNone;
    }
  }

  lemma SweepWasDue(limit: nat, s: Sys, step: Step)
    requires Enabled(limit, s, step) && DueSweepsFindNone(s)
    ensures step.SweepNonAdmins? ==> SweptMarked(s.conf) == {}
  {
  }

  // ----- Waiting for a marked user -----

  /** With `wait_for_marked`, everybody waits while no marked user is counted. */
  ghost predicate AllWait(c: Conf) {
    c.settings.waitForMarked && c.markedCount == 0 ==> forall k :: k in c.members ==> c.members[k].waiting
  }

  /** A kick re-arms nobody, so it keeps everyone waiting exactly unless it removes the last
      counted marked user while others remain. */
  lemma {:induction false} KickKeepsWaitingExactly(c: Conf, id: Id, latest: Option<Id>)
    requires Basic(c) && AllWait(c)
    ensures AllWait(Kick(c, id, latest)) <==>
            !(c.settings.waitForMarked && LeavesMarked(c, id) && c.markedCount == 1 && c.members.Keys != {id})
  {
    KickIsBasic(c, id, latest);
    var kicked := Kick(c, id, latest);
    if c.settings.waitForMarked && LeavesMarked(c, id) && c.markedCount == 1 {
      if other :| other in c.members && other != id {
        assert other in kicked.members && !kicked.members[other].waiting;
      } else {
        assert c.members.Keys == {id};
      }
    }
  }

  /** The same for kicking all non-admins. */
  lemma {:induction false} KickAllKeepsWaitingExactly(c: Conf)
    requires Basic(c) && AllWait(c)
    ensures AllWait(KickAll(c)) <==>
            !(c.settings.waitForMarked && c.markedCount > 0 && |SweptMarked(c)| == c.markedCount
              && NonAdmins(c.members) != c.members.Keys)
  {
    KickAllIsBasic(c);
    var kicked := KickAll(c);
    if c.settings.waitForMarked && c.markedCount > 0 && |SweptMarked(c)| == c.markedCount {
      if other :| other in c.members && c.members[other].admin {
        assert other in kicked.members && !kicked.members[other].waiting;
      } else {
        assert NonAdmins(c.members) == c.members.Keys;
      }
    }
  }

  /** Marked users go only through `leave_conference`: no kick hits one. */
  ghost predicate SparesMarked(s: Sys, step: Step) {
    match step
    case KickOne(id, _) => !LeavesMarked(s.conf, id)
    case KickEveryone => SweptMarked(s.conf) == {}
    case _ => true
  }

  lemma {:induction false} StepKeepsWaiting(limit: nat, s: Sys, step: Step)
    requires Basic(s.conf) && AllWait(s.conf) && Enabled(limit, s, step) && SparesMarked(s, step)
    ensures AllWait(Take(s, step).conf)
  {
    var c := s.conf;
    match step
    case KickOne(id, latest) => KickKeepsWaitingExactly(c, id, latest);
    case KickEveryone => KickAllKeepsWaitingExactly(c);
    case _ =>
  }

  /** In every run where marked users go only through `leave_conference`, whatever else is
      interleaved and whatever is muted or unmuted, everybody waits whenever
      `wait_for_marked` is set and no marked user is counted. */
  lemma {:induction false} RunKeepsWaiting(settings: Settings, limit: nat, run: seq<Sys>, steps: seq<Step>, k: nat)
    requires IsRun(settings, limit, run, steps) && k < |run|
    requires forall i :: 0 <= i < |steps| ==> SparesMarked(run[i], steps[i])
    ensures AllWait(run[k].conf)
  {
    hide Take, Enabled, SparesMarked, Basic;
    if k > 0 {
      RunKeepsWaiting(settings, limit, run, steps, k - 1);
      RunIsBasic(settings, limit, run, steps, k - 1);
      StepKeepsWaiting(limit, run[k - 1], steps[k - 1]);
    }
  }

  // ----- Capacity -----

  lemma NoMoreMembers(a: Members, b: Members)
    requires a.Keys <= b.Keys
    ensures |a| <= |b|
  {
    assert b.Keys == a.Keys + (b.Keys - a.Keys);
    assert |a| == |a.Keys| && |b| == |b.Keys|;
  }

  ghost predicate WithinCapacity(limit: nat, s: Sys) {
    && |s.joining| <= limit
    && (s.conf.settings.maxMembers > 0 ==> |s.conf.members| + |s.joining| <= s.conf.settings.maxMembers + limit - 1)
  }

  lemma {:induction false} EnterSize(c: Conf, id: Id, m: Member)
    requires id !in c.members
    ensures |Enter(c, id, m).members| == |c.members| + 1
  {
    var members := Enter(c, id, m).members;
    assert members.Keys == c.members.Keys + {id};
    assert |members| == |members.Keys| && |c.members| == |c.members.Keys|;
  }

  /** Nothing but a join adds members. */
  lemma OthersOnlyRemove(s: Sys, step: Step)
    requires !step.CheckJoin? && !step.Insert?
    ensures Take(s, step).conf.members.Keys <= s.conf.members.Keys && Take(s, step).joining == s.joining
  {
    hide MarkedIds;
  }

  lemma {:induction false} InsertMoves(s: Sys, id: Id)
    requires id in s.joining && id !in s.conf.members
    ensures |Take(s, Insert(id)).conf.members| == |s.conf.members| + 1
    ensures |Take(s, Insert(id)).joining| == |s.joining| - 1
  {
    hide Enter;
    EnterSize(s.conf, id, s.joining[id]);
    var rest := s.joining - {id};
    assert s.joining.Keys == rest.Keys + {id};
    assert |rest| == |rest.Keys| && |s.joining| == |s.joining.Keys|;
  }

  lemma {:induction false} StepKeepsCapacity(limit: nat, s: Sys, step: Step)
    requires WithinCapacity(limit, s) && Enabled(limit, s, step)
    ensures WithinCapacity(limit, Take(s, step))
  {
    StepKeepsSettings(s, step);
    if step.CheckJoin? {
    } else {
      hide Take, IsLatest;
      if step.Insert? {
        InsertMoves(s, step.id);
      } else {
        OthersOnlyRemove(s, step);
        NoMoreMembers(Take(s, step).conf.members, s.conf.members);
      }
    }
  }

  lemma StepKeepsSettings(s: Sys, step: Step)
    ensures Take(s, step).conf.settings == s.conf.settings
  {
  }

  /** Checks and inserts take the lock separately, so with at most `limit` joiners between
      the two the conference can overshoot its limit, by at most `limit - 1`; never when
      joins come one at a time. */
  lemma {:induction false} CapacityBound(settings: Settings, limit: nat, run: seq<Sys>, steps: seq<Step>, k: nat)
    requires IsRun(settings, limit, run, steps) && k < |run| && limit >= 1
    ensures WithinCapacity(limit, run[k]) && run[k].conf.settings == settings
    ensures settings.maxMembers > 0 ==> |run[k].conf.members| <= settings.maxMembers + limit - 1
  {
    hide Take, Enabled;
    if k > 0 {
      CapacityBound(settings, limit, run, steps, k - 1);
      StepKeepsCapacity(limit, run[k - 1], steps[k - 1]);
      StepKeepsSettings(run[k - 1], steps[k - 1]);
    }
  }

  ghost predicate Reachable(settings: Settings, limit: nat, s: Sys) {
    exists run, steps :: IsRun(settings, limit, run, steps) && run[|run| - 1] == s
  }

  lemma {:induction false} ReachableStep(settings: Settings, limit: nat, s: Sys, step: Step)
    requires Reachable(settings, limit, s) && Enabled(limit, s, step)
    ensures Reachable(settings, limit, Take(s, step))
  {
    hide Take, Enabled;
    var run, steps :| IsRun(settings, limit, run, steps) && run[|run| - 1] == s;
    assert IsRun(settings, limit, run + [Take(s, step)], steps + [step]);
  }

  /** `n` joiners in the conference and nothing else going on. */
  ghost predicate Filled(s: Sys, n: nat) {
    && s.joining == map[] && !s.conf.locked && |s.conf.members| == n
    && (forall id :: id in s.conf.members || id in s.inside ==> id < n)
  }

  lemma {:induction false} JoinOne(settings: Settings, limit: nat, s: Sys, n: nat, user: Member)
    requires Reachable(settings, limit, s) && Filled(s, n) && limit >= 1 && !user.waiting
    requires s.conf.settings == settings && settings.maxMembers > n
    ensures var t := Take(Take(s, CheckJoin(n, user)), Insert(n));
            Reachable(settings, limit, t) && Filled(t, n + 1) && t.conf.settings == settings
  {
    ReachableStep(settings, limit, s, CheckJoin(n, user));
    var checked := Take(s, CheckJoin(n, user));
    ReachableStep(settings, limit, checked, Insert(n));
    var t := Take(checked, Insert(n));
    EnterSize(s.conf, n, user);
    assert t.joining == map[];
  }

  lemma {:induction false} FillUp(settings: Settings, limit: nat, n: nat, user: Member) returns (s: Sys)
    requires limit >= 1 && n <= settings.maxMembers && !user.waiting
    ensures Reachable(settings, limit, s) && Filled(s, n) && s.conf.settings == settings
  {
    if n == 0 {
      s := Sys(Empty(settings), map[], {}, 0);
      assert IsRun(settings, limit, [s], []);
    } else {
      var before := FillUp(settings, limit, n - 1, user);
      JoinOne(settings, limit, before, n - 1, user);
      s := Take(Take(before, CheckJoin(n - 1, user)), Insert(n - 1));
    }
  }

  /** Two joiners that both pass the check before either is inserted. */
  lemma {:induction false} CheckTwo(settings: Settings, limit: nat, s: Sys, n: nat, user: Member) returns (t: Sys)
    requires Reachable(settings, limit, s) && Filled(s, n) && limit >= 2 && !user.waiting
    requires s.conf.settings == settings && settings.maxMembers > n
    ensures Reachable(settings, limit, t) && t.conf == s.conf && t.joining == map[n := user, n + 1 := user]
  {
    hide Reachable;
    ReachableStep(settings, limit, s, CheckJoin(n, user));
    var one := Take(s, CheckJoin(n, user));
    assert |one.joining| == 1;
    ReachableStep(settings, limit, one, CheckJoin(n + 1, user));
    t := Take(one, CheckJoin(n + 1, user));
  }

  lemma {:induction false} JoinTwo(settings: Settings, limit: nat, s: Sys, n: nat, user: Member) returns (t: Sys)
    requires Reachable(settings, limit, s) && Filled(s, n) && limit >= 2 && !user.waiting
    requires s.conf.settings == settings && settings.maxMembers > n
    ensures Reachable(settings, limit, t) && |t.conf.members| == n + 2
  {
    var two := CheckTwo(settings, limit, s, n, user);
    hide Reachable, Take;
    InsertReached(settings, limit, two, n);
    var three := Take(two, Insert(n));
    InsertReached(settings, limit, three, n + 1);
    t := Take(three, Insert(n + 1));
  }

  lemma {:induction false} InsertReached(settings: Settings, limit: nat, s: Sys, id: Id)
    requires Reachable(settings, limit, s) && id in s.joining && id !in s.conf.members
    ensures var t := Take(s, Insert(id));
            && Reachable(settings, limit, t) && t.joining == s.joining - {id}
            && t.conf.members.Keys == s.conf.members.Keys + {id} && |t.conf.members| == |s.conf.members| + 1
  {
    hide Reachable;
    ReachableStep(settings, limit, s, Insert(id));
    InsertMoves(s, id);
  }

  /** A limit on members holds in every interleaving exactly when joins come one at a time:
      with two at once, whatever the limit, some interleaving exceeds it. */
  lemma {:induction false} LimitHoldsExactly(settings: Settings, limit: nat, user: Member)
    requires settings.maxMembers > 0 && limit >= 1 && !user.waiting
    ensures (forall s :: Reachable(settings, limit, s) ==> |s.conf.members| <= settings.maxMembers) <==> limit == 1
  {
    if limit == 1 {
      forall s | Reachable(settings, limit, s)
        ensures |s.conf.members| <= settings.maxMembers
      {
        var run, steps :| IsRun(settings, limit, run, steps) && run[|run| - 1] == s;
        CapacityBound(settings, limit, run, steps, |run| - 1);
      }
    } else {
      var s := FillUp(settings, limit, settings.maxMembers - 1, user);
      var t := JoinTwo(settings, limit, s, settings.maxMembers - 1, user);
    }
  }

  // ----- Denied joins -----

  /** Members, and the user on record as the last to join, are channels still inside, and a
      channel that is joining is not. */
  ghost predicate Tracked(s: Sys) {
    && s.conf.members.Keys <= s.inside && s.joining.Keys !! s.inside
    && (s.conf.lastJoined.Some? ==> s.conf.lastJoined.value in s.inside)
  }

  lemma InsertIsTracked(s: Sys, id: Id)
    requires Tracked(s) && id in s.joining
    ensures Tracked(Take(s, Insert(id)))
  {
  }

  lemma LeaveIsTracked(s: Sys, id: Id, latest: Option<Id>)
    requires Tracked(s) && id !in s.joining && IsLatest(s.conf.members - {id}, latest)
    ensures Tracked(Take(s, LeaveFirst(id, latest)))
  {
    var c := s.conf;
    assert Leave(c, id, latest).members.Keys == c.members.Keys - {id};
  }

  lemma {:induction false} StepIsTracked(limit: nat, s: Sys, step: Step)
    requires Tracked(s) && Enabled(limit, s, step)
    ensures Tracked(Take(s, step))
  {
    if step.Insert? {
      hide Take;
      InsertIsTracked(s, step.id);
    } else if step.LeaveFirst? {
      hide Take;
      LeaveIsTracked(s, step.id, step.latest);
    } else if !step.CheckJoin? {
      OthersOnlyRemove(s, step);
      hide Enter, Leave, MarkedIds;
    }
  }

  lemma {:induction false} RunIsTracked(settings: Settings, limit: nat, run: seq<Sys>, steps: seq<Step>, k: nat)
    requires IsRun(settings, limit, run, steps) && k < |run|
    ensures Tracked(run[k]) && forall id :: id in run[k].joining ==> id !in run[k].conf.members
  {
    if k > 0 {
      hide Take, Enabled, Tracked;
      RunIsTracked(settings, limit, run, steps, k - 1);
      StepIsTracked(limit, run[k - 1], steps[k - 1]);
    }
  }

  /** A join that was denied still calls `leave_conference`. At every moment of every run,
      that leaves the conference exactly as it is: no channel that is not inside is a member,
      or on record as the last to join. */
  lemma {:induction false} DeniedJoinLeavesNoTrace(settings: Settings, limit: nat, run: seq<Sys>, steps: seq<Step>,
                                                   k: nat, id: Id, latest: Option<Id>)
    requires IsRun(settings, limit, run, steps) && k < |run| && id !in run[k].inside
    ensures Leave(run[k].conf, id, latest) == run[k].conf && !AsksForSweep(run[k].conf, id)
    ensures id !in run[k].joining ==> Take(run[k], LeaveFirst(id, latest)) == run[k]
  {
    RunIsTracked(settings, limit, run, steps, k);
    RunIsBasic(settings, limit, run, steps, k);
    var c := run[k].conf;
    assert c.members - {id} == c.members && c.bridge - {id} == c.bridge && run[k].inside - {id} == run[k].inside;
  }

  // ----- Kicking the last to join -----

  /** `last_joined` names a latest joiner, or nobody when there is nobody. */
  ghost predicate LastIsLatest(c: Conf) { IsLatest(c.members, c.lastJoined) }

  /** The condition under which a step keeps it so: nobody overtakes a joiner with a later
      join time, which is taken before the check, and no sweep or kick of all non-admins
      removes the user on record. */
  ghost predicate KeepsLast(s: Sys, step: Step) {
    var c := s.conf;
    match step
    case Insert(id) =>
      id in s.joining ==> forall k :: k in c.members ==> c.members[k].joinTime <= s.joining[id].joinTime
    case SweepNonAdmins => LastIsPresent(c) ==> c.members[c.lastJoined.value].admin
    case KickEveryone => LastIsPresent(c) ==> c.members[c.lastJoined.value].admin
    case _ => true
  }

  lemma EnterLatest(c: Conf, id: Id, m: Member)
    requires id !in c.members
    ensures LastIsLatest(Enter(c, id, m)) <==> forall k :: k in c.members ==> c.members[k].joinTime <= m.joinTime
  {
    var d := Enter(c, id, m);
    assert d.members.Keys == c.members.Keys + {id} && d.members[id].joinTime == m.joinTime;
    assert forall k :: k in c.members ==> d.members[k].joinTime == c.members[k].joinTime;
  }

  /** Only who is a member and their join times matter. */
  lemma SameLatest(a: Members, b: Members, latest: Option<Id>)
    requires a.Keys == b.Keys && forall k :: k in a ==> a[k].joinTime == b[k].joinTime
    ensures IsLatest(a, latest) <==> IsLatest(b, latest)
    ensures forall c: Conf :: c.members == a && c.lastJoined == latest ==> (LastIsLatest(c) <==> IsLatest(a, latest))
    ensures forall c: Conf :: c.members == b && c.lastJoined == latest ==> (LastIsLatest(c) <==> IsLatest(b, latest))
  {
    assert a == map[] <==> b == map[] by {
      assert a == map[] <==> a.Keys == {};
      assert b == map[] <==> b.Keys == {};
    }
  }

  lemma MuteEachLatest(c: Conf)
    ensures LastIsLatest(ToggleAllMuted(c)) <==> LastIsLatest(c)
  {
    SameLatest(c.members, ToggleAllMuted(c).members, c.lastJoined);
  }

  lemma DetachLatest(c: Conf, id: Id, latest: Option<Id>)
    requires LastIsLatest(c) && IsLatest(c.members - {id}, latest)
    ensures LastIsLatest(Detach(c, id, latest))
  {
  }

  lemma {:induction false} LeaveLatest(c: Conf, id: Id, latest: Option<Id>)
    requires LastIsLatest(c) && IsLatest(c.members - {id}, latest)
    ensures LastIsLatest(Leave(c, id, latest)) && LastIsLatest(Kick(c, id, latest))
  {
    DetachLatest(c, id, latest);
    var d := Detach(c, id, latest);
    hide LastIsLatest, IsLatest, Detach;
    SameLatest(d.members, d.members, d.lastJoined);
    SameLatest(d.members, Each(d.members, Rearm), d.lastJoined);
  }

  lemma NonAdminsGone(c: Conf)
    requires LastIsLatest(c)
    ensures LastIsLatest(Sweep(c)) <==> (LastIsPresent(c) ==> c.members[c.lastJoined.value].admin)
    ensures LastIsLatest(KickAll(c)) <==> (LastIsPresent(c) ==> c.members[c.lastJoined.value].admin)
  {
    hide MarkedIds;
  }

  /** Every step keeps `last_joined` current if and only if it meets that condition. */
  lemma {:induction false} LastKeptExactly(limit: nat, s: Sys, step: Step)
    requires Enabled(limit, s, step) && LastIsLatest(s.conf)
    ensures LastIsLatest(Take(s, step).conf) <==> KeepsLast(s, step)
  {
    var c := s.conf;
    hide LastIsLatest, Enter, Leave, Kick, KickAll, Sweep, Each, IsLatest;
    match step
    case CheckJoin(_, _) =>
    case Insert(id) => EnterLatest(c, id, s.joining[id]);
    case LeaveFirst(id, latest) => LeaveLatest(c, id, latest);
    case SweepNonAdmins => NonAdminsGone(c);
    case KickOne(id, latest) => LeaveLatest(c, id, latest);
    case KickEveryone => NonAdminsGone(c);
    case RefreshLast(latest) => SameLatest(c.members, c.members, latest);
    case Mute(id, muted) => SameLatest(c.members, SetMuted(c, id, muted).members, c.lastJoined);
    case Deafen(id) => SameLatest(c.members, ToggleDeaf(c, id).members, c.lastJoined);
    case MuteEveryone => MuteEachLatest(c);
    case Lock(_) => SameLatest(c.members, c.members, c.lastJoined);
  }

  /** In every run of such steps `last_joined` is current at every moment. */
  lemma {:induction false} RunKeepsLast(settings: Settings, limit: nat, run: seq<Sys>, steps: seq<Step>, k: nat)
    requires IsRun(settings, limit, run, steps) && k < |run|
    requires forall i :: 0 <= i < |steps| ==> KeepsLast(run[i], steps[i])
    ensures LastIsLatest(run[k].conf)
  {
    if k > 0 {
      hide Take, Enabled, KeepsLast, LastIsLatest;
      RunKeepsLast(settings, limit, run, steps, k - 1);
      LastKeptExactly(limit, run[k - 1], steps[k - 1]);
    }
  }

  /** Calls of `kick_last`, one after another. */
  ghost predicate KickLastRun(cs: seq<Conf>) {
    forall i :: 0 <= i < |cs| - 1 ==>
      && (LastIsPresent(cs[i]) ==>
            exists latest :: IsLatest(cs[i + 1].members, latest) && cs[i + 1] == KickLast(cs[i], latest))
      && (!LastIsPresent(cs[i]) ==> cs[i + 1] == cs[i])
  }

  lemma {:induction false} KickLastStep(c: Conf, latest: Option<Id>)
    requires LastIsLatest(c) && c.members != map[] && IsLatest(KickLast(c, latest).members, latest)
    ensures var d := KickLast(c, latest);
            && c.lastJoined.Some? && c.lastJoined.value in c.members
            && d.members == c.members - {c.lastJoined.value}
            && LastIsLatest(d) && |d.members| == |c.members| - 1
  {
    var id := c.lastJoined.value;
    var rest := c.members - {id};
    assert c.members.Keys == rest.Keys + {id};
    assert |rest| == |rest.Keys| && |c.members| == |c.members.Keys|;
  }

  /** Starting from a current `last_joined`, each call removes a latest joiner, so join times
      never increase, and it takes exactly as many calls as there are members to empty the
      conference. */
  lemma {:induction false} KickLastEmpties(cs: seq<Conf>, k: nat)
    requires KickLastRun(cs) && k < |cs| && LastIsLatest(cs[0])
    ensures LastIsLatest(cs[k])
    ensures |cs[k].members| == SaturatingSub(|cs[0].members|, k)
    ensures 0 < k <= |cs[0].members| ==>
              && LastIsPresent(cs[k - 1])
              && cs[k].members == cs[k - 1].members - {cs[k - 1].lastJoined.value}
              && forall other :: other in cs[k].members ==>
                   cs[k].members[other].joinTime <= cs[k - 1].members[cs[k - 1].lastJoined.value].joinTime
  {
    if k > 0 {
      KickLastEmpties(cs, k - 1);
      var c, d := cs[k - 1], cs[k - 1 + 1];
      if c.members != map[] {
        assert LastIsPresent(c);
        var latest :| IsLatest(d.members, latest) && d == KickLast(c, latest);
        KickLastStep(c, latest);
      }
    }
  }

  /** A call changes nothing exactly when `last_joined` is stale or empty. */
  lemma {:induction false} StaleKickLast(c: Conf, latest: Option<Id>)
    ensures KickLast(c, latest) == c <==> !(c.lastJoined.Some? && c.lastJoined.value in c.members)
  {
    if LastIsPresent(c) {
      assert c.lastJoined.value !in KickLast(c, latest).members;
    }
  }
}
