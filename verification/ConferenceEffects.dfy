/** What each step of a conference does, told member by member: who is in, what they are, and
    whether they are muted, deaf or waiting (confbridge.rs). */
module ConferenceEffects {
  import opened Common
  import opened Conference
  import opened ConferenceRuns

  /** A join passes its check if and only if the conference is open to it and has room. */
  lemma {:induction false} JoinAllowedExactly(s: Sys, id: Id, user: Member)
    requires id !in s.joining
    ensures id in Take(s, CheckJoin(id, user)).joining <==>
            && (user.admin || !s.conf.locked)
            && (s.conf.settings.maxMembers == 0 || |s.conf.members| < s.conf.settings.maxMembers)
    ensures Take(s, CheckJoin(id, user)).conf == s.conf
  {
  }

  /** Who is a member after a step: an insert adds one user, a leave or kick takes that one away,
      a sweep or a kick of all takes the non-admins, and nothing else changes it. */
  lemma {:induction false} MembersAfter(s: Sys, step: Step, k: Id)
    requires step.Insert? ==> step.id in s.joining
    ensures k in Take(s, step).conf.members <==>
            match step
            case Insert(id) => k == id || k in s.conf.members
            case LeaveFirst(id, _) => k != id && k in s.conf.members
            case KickOne(id, _) => k != id && k in s.conf.members
            case SweepNonAdmins => k in s.conf.members && s.conf.members[k].admin
            case KickEveryone => k in s.conf.members && s.conf.members[k].admin
            case _ => k in s.conf.members
  {
    hide MarkedIds;
  }

  /** The first marked user comes in, and those who waited for one are let in. */
  ghost predicate Activates(s: Sys, step: Step) {
    && step.Insert? && step.id in s.joining && s.joining[step.id].marked
    && s.conf.markedCount == 0 && s.conf.settings.waitForMarked
  }

  /** The last marked user leaves, and the others wait again. */
  ghost predicate Deactivates(s: Sys, step: Step) {
    && step.LeaveFirst? && step.id in s.conf.members && s.conf.members[step.id].marked
    && s.conf.markedCount <= 1 && s.conf.settings.waitForMarked
  }

  function MutedAfter(s: Sys, step: Step, m: Member, k: Id): bool {
    if step.Mute? && step.id == k then step.muted
    else if step.MuteEveryone? && !m.admin then !s.conf.allMuted
    else m.muted
  }

  lemma EnterOthers(c: Conf, id: Id, m: Member, k: Id)
    requires k in c.members && k != id
    ensures k in Enter(c, id, m).members
    ensures Enter(c, id, m).members[k] ==
            if m.marked && c.markedCount == 0 && c.settings.waitForMarked && c.members[k].waiting
            then c.members[k].(waiting := false, muted := false) else c.members[k]
  {
  }

  lemma LeaveOthers(c: Conf, id: Id, latest: Option<Id>, k: Id)
    requires k in c.members && k != id
    ensures k in Leave(c, id, latest).members
    ensures Leave(c, id, latest).members[k] ==
            if id in c.members && c.members[id].marked && c.markedCount <= 1 && c.settings.waitForMarked
            then c.members[k].(waiting := true, muted := true) else c.members[k]
  {
  }

  lemma AllMutedOthers(c: Conf, k: Id)
    requires k in c.members
    ensures k in ToggleAllMuted(c).members
    ensures ToggleAllMuted(c).members[k] ==
            if c.members[k].admin then c.members[k] else c.members[k].(muted := !c.allMuted)
  {
  }

  /** A member who stays keeps name, role and join time. They wait exactly if they waited and
      nobody let them in, or the last marked user left; they are muted by waiting, unmuted when
      let in, and otherwise only by their own mute or, unless admin, by the mute of all; and
      only their own toggle makes them deaf or hear again. */
  lemma {:induction false} FlagsAfter(s: Sys, step: Step, k: Id)
    requires k in s.conf.members && k in Take(s, step).conf.members && (step.Insert? ==> step.id != k)
    ensures var before := s.conf.members[k];
            Take(s, step).conf.members[k] ==
            before.(waiting := (before.waiting && !Activates(s, step)) || Deactivates(s, step),
                    deaf := before.deaf != (step == Deafen(k)),
                    muted := if Deactivates(s, step) then true
                             else if before.waiting && Activates(s, step) then false
                             else MutedAfter(s, step, before, k))
  {
    var c := s.conf;
    if step.Insert? {
      hide Enter, Leave, MarkedIds;
      EnterOthers(c, step.id, if step.id in s.joining then s.joining[step.id] else c.members[k], k);
    } else {
      MembersAfter(s, step, k);
      if step.LeaveFirst? {
        hide Enter, Leave, MarkedIds;
        LeaveOthers(c, step.id, step.latest, k);
      } else {
        OtherSteps(s, step, k);
        hide Take;
      }
    }
  }

  /** Steps other than an insert or a leave change flags only by name. */
  lemma {:induction false} OtherSteps(s: Sys, step: Step, k: Id)
    requires k in s.conf.members && k in Take(s, step).conf.members && !step.Insert? && !step.LeaveFirst?
    ensures var before := s.conf.members[k];
            Take(s, step).conf.members[k] ==
            before.(deaf := before.deaf != (step == Deafen(k)), muted := MutedAfter(s, step, before, k))
  {
    hide Enter, Leave, MarkedIds, NonAdmins, Each, ToggleAllMuted, Kick;
    match step
    case MuteEveryone => AllMutedOthers(s.conf, k);
    case KickOne(id, latest) => KickOthers(s.conf, id, latest, k);
    case _ =>
  }

  lemma KickOthers(c: Conf, id: Id, latest: Option<Id>, k: Id)
    requires k in c.members && k in Kick(c, id, latest).members
    ensures Kick(c, id, latest).members[k] == c.members[k]
  {
  }

  /** A user comes in as they are, but waits, muted, if waiting is required and no marked user
      is counted, and is muted if all non-admins are and they are none. */
  lemma {:induction false} EntersAs(s: Sys, id: Id)
    requires id in s.joining && !s.joining[id].waiting && id !in s.conf.members
    ensures var c, m := s.conf, s.joining[id];
            var waits := c.settings.waitForMarked && c.markedCount == 0 && !m.marked;
            Take(s, Insert(id)).conf.members[id] ==
            m.(waiting := waits, muted := m.muted || waits || (c.allMuted && !m.admin))
  {
  }

  /** The switches of the conference itself. */
  lemma {:induction false} SwitchesAfter(s: Sys, step: Step)
    ensures var c, d := s.conf, Take(s, step).conf;
            && d.settings == c.settings
            && d.locked == (if step.Lock? then step.locked else c.locked)
            && d.allMuted == (c.allMuted != step.MuteEveryone?)
            && (d.active <==> (c.active && !Deactivates(s, step)) || Activates(s, step))
  {
    hide MarkedIds, Each;
  }

  /** A sweep is called for exactly when the last counted marked user leaves a conference that
      ends then, and each sweep answers one call. */
  lemma {:induction false} SweepDueExactly(s: Sys, step: Step)
    ensures Take(s, step).sweeps ==
            if step.LeaveFirst? && step.id in s.conf.members && s.conf.members[step.id].marked
               && s.conf.markedCount <= 1 && s.conf.settings.endWhenMarkedLeaves
            then s.sweeps + 1
            else if step.SweepNonAdmins? && s.sweeps > 0 then s.sweeps - 1
            else s.sweeps
  {
    hide Enter, Leave, Kick, KickAll, Sweep;
  }

  /** The marked count moves by the marked users that come and go, sweeps apart. */
  lemma {:induction false} CountAfter(s: Sys, step: Step)
    requires Basic(s.conf)
    ensures Take(s, step).conf.markedCount ==
            match step
            case Insert(id) => s.conf.markedCount + (if id in s.joining && s.joining[id].marked then 1 else 0)
            case LeaveFirst(id, _) => s.conf.markedCount - (if LeavesMarked(s.conf, id) then 1 else 0)
            case KickOne(id, _) => s.conf.markedCount - (if LeavesMarked(s.conf, id) then 1 else 0)
            case KickEveryone => s.conf.markedCount - |NonAdmins(s.conf.members) * MarkedIds(s.conf.members)|
            case _ => s.conf.markedCount
  {
    match step
    case LeaveFirst(id, _) => assert LeavesMarked(s.conf, id) ==> id in MarkedIds(s.conf.members);
    case KickOne(id, _) => assert LeavesMarked(s.conf, id) ==> id in MarkedIds(s.conf.members);
    case KickEveryone => KickAllIsBasic(s.conf);
    case _ =>
  }

  /** In every run where marked users go only through `leave_conference`, a conference that
      waits for marked users is active exactly while one is counted; others never are. */
  lemma {:induction false} ActiveExactly(settings: Settings, limit: nat, run: seq<Sys>, steps: seq<Step>, k: nat)
    requires IsRun(settings, limit, run, steps) && k < |run|
    requires forall i :: 0 <= i < |steps| ==> SparesMarked(run[i], steps[i])
    ensures run[k].conf.active <==> run[k].conf.settings.waitForMarked && run[k].conf.markedCount > 0
  {
    hide Take, Enabled, SparesMarked, Basic, Surplus, SweepsClean;
    if k > 0 {
      ActiveExactly(settings, limit, run, steps, k - 1);
      RunIsBasic(settings, limit, run, steps, k - 1);
      ActiveStep(run[k - 1], steps[k - 1]);
    }
  }

  lemma {:induction false} ActiveStep(s: Sys, step: Step)
    requires Basic(s.conf) && SparesMarked(s, step)
    requires s.conf.active <==> s.conf.settings.waitForMarked && s.conf.markedCount > 0
    ensures var d := Take(s, step).conf; d.active <==> d.settings.waitForMarked && d.markedCount > 0
  {
    SwitchesAfter(s, step);
    CountAfter(s, step);
    assert step.LeaveFirst? && LeavesMarked(s.conf, step.id) ==> step.id in MarkedIds(s.conf.members);
    hide Take, MarkedIds, NonAdmins;
  }
}
