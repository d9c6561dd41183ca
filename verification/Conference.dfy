/** A ConfBridge conference (confbridge.rs): the steps its tasks take under the conference
    lock, as functions of its state, and the object that takes them. */
module Conference {
  import opened Common

  /** Channel ids and channel names are only ever compared. */
  type Id = nat
  type Name = nat

  datatype Member = Member(name: Name, admin: bool, marked: bool, muted: bool, deaf: bool,
                           waiting: bool, joinTime: nat)

  type Members = map<Id, Member>

  datatype Settings = Settings(maxMembers: nat, waitForMarked: bool, endWhenMarkedLeaves: bool)

  datatype Conf = Conf(settings: Settings, members: Members, bridge: set<Id>, locked: bool, allMuted: bool,
                       active: bool, markedCount: nat, lastJoined: Option<Id>)

  function Empty(settings: Settings): Conf {
    Conf(settings, map[], {}, false, false, false, 0, None)
  }

  // ----- Helpers on members -----

  function Each(ms: Members, f: Member -> Member): (r: Members)
    ensures r.Keys == ms.Keys
  {
    map k | k in ms :: f(ms[k])
  }

  function Awaken(m: Member): Member { if m.waiting then m.(waiting := false, muted := false) else m }

  function Rearm(m: Member): Member { m.(waiting := true, muted := true) }

  function MarkedIds(ms: Members): set<Id> { set k | k in ms && ms[k].marked }

  function NonAdmins(ms: Members): set<Id> { set k | k in ms && !ms[k].admin }

  /** A result of `max_by_key(join_time)`: any member with the greatest join time. */
  ghost predicate IsLatest(ms: Members, latest: Option<Id>) {
    match latest
    case None => ms == map[]
    case Some(id) => id in ms && forall k :: k in ms ==> ms[k].joinTime <= ms[id].joinTime
  }

  function SaturatingSub(n: nat, k: nat): nat { if n < k then 0 else n - k }

  // ----- Steps -----

  /** The check of `join_conference`, made under a read lock of its own. */
  predicate MayJoin(c: Conf, admin: bool) {
    !(c.locked && !admin) && !(c.settings.maxMembers > 0 && |c.members| >= c.settings.maxMembers)
  }

  predicate MustWait(c: Conf, m: Member) {
    c.settings.waitForMarked && c.markedCount == 0 && !m.marked
  }

  /** The insertion of `join_conference`. */
  function Enter(c: Conf, id: Id, m: Member): Conf {
    var waiting := if MustWait(c, m) then Rearm(m) else m;
    var entering := if c.allMuted && !m.admin then waiting.(muted := true) else waiting;
    var members := c.members[id := entering];
    var count := c.markedCount + (if m.marked then 1 else 0);
    var activate := m.marked && count == 1 && c.settings.waitForMarked;
    c.(bridge := c.bridge + {id},
       lastJoined := Some(id),
       members := if activate then Each(members, Awaken) else members,
       markedCount := count,
       active := c.active || activate)
  }

  predicate LeavesMarked(c: Conf, id: Id) { id in c.members && c.members[id].marked }

  /** Takes a member out, and names a new latest joiner if it was the last to join. */
  function Detach(c: Conf, id: Id, latest: Option<Id>): Conf {
    c.(members := c.members - {id},
       bridge := c.bridge - {id},
       lastJoined := if c.lastJoined == Some(id) then latest else c.lastJoined)
  }

  /** A marked user has gone. */
  function MarkedGone(c: Conf): Conf {
    var count := SaturatingSub(c.markedCount, 1);
    if count == 0 && c.settings.waitForMarked
    then c.(markedCount := count, active := false, members := Each(c.members, Rearm))
    else c.(markedCount := count)
  }

  /** The first critical section of `leave_conference`. */
  function Leave(c: Conf, id: Id, latest: Option<Id>): Conf {
    var detached := Detach(c, id, latest);
    if LeavesMarked(c, id) then MarkedGone(detached) else detached
  }

  /** Whether that section asks for the end-marked sweep. */
  predicate AsksForSweep(c: Conf, id: Id) {
    LeavesMarked(c, id) && SaturatingSub(c.markedCount, 1) == 0 && c.settings.endWhenMarkedLeaves
  }

  /** The second critical section of `leave_conference`: removes every non-admin. */
  function Sweep(c: Conf): Conf {
    var out := NonAdmins(c.members);
    c.(members := c.members - out, bridge := c.bridge - out)
  }

  /** Both sections, one right after the other. */
  function LeaveAtOnce(c: Conf, id: Id, latest: Option<Id>): Conf {
    if AsksForSweep(c, id) then Sweep(Leave(c, id, latest)) else Leave(c, id, latest)
  }

  /** `kick_user` */
  function Kick(c: Conf, id: Id, latest: Option<Id>): Conf {
    if id !in c.members then c
    else if c.members[id].marked
    then Detach(c, id, latest).(markedCount := SaturatingSub(c.markedCount, 1))
    else Detach(c, id, latest)
  }

  /** `kick_all_participants` */
  function KickAll(c: Conf): Conf {
    var out := NonAdmins(c.members);
    c.(members := c.members - out, bridge := c.bridge - out,
       markedCount := SaturatingSub(c.markedCount, |out * MarkedIds(c.members)|))
  }

  predicate LastIsPresent(c: Conf) { c.lastJoined.Some? && c.lastJoined.value in c.members }

  /** The last section of `kick_last`: names a latest joiner, whoever was kicked. */
  function Refresh(c: Conf, latest: Option<Id>): Conf { c.(lastJoined := latest) }

  /** `kick_last`, its three sections one right after the other. */
  function KickLast(c: Conf, latest: Option<Id>): Conf {
    if LastIsPresent(c) then Refresh(Kick(c, c.lastJoined.value, latest), latest) else c
  }

  function SetMuted(c: Conf, id: Id, muted: bool): Conf {
    if id in c.members then c.(members := c.members[id := c.members[id].(muted := muted)]) else c
  }

  function ToggleDeaf(c: Conf, id: Id): Conf {
    if id in c.members then c.(members := c.members[id := c.members[id].(deaf := !c.members[id].deaf)]) else c
  }

  /** `toggle_mute_participants` */
  function ToggleAllMuted(c: Conf): Conf {
    var muted := !c.allMuted;
    c.(allMuted := muted, members := Each(c.members, (m: Member) => if m.admin then m else m.(muted := muted)))
  }

  /** `conference_participant_flags`: what the mixer is told, by channel name. Of members
      with one name, any may be the one the map ends up with. */
  ghost predicate FlagsOf(c: Conf, flags: map<Name, (bool, bool)>) {
    && (forall k :: k in c.members ==> c.members[k].name in flags)
    && (forall n :: n in flags ==>
          exists k :: k in c.members && c.members[k].name == n
            && flags[n] == (c.members[k].muted || c.members[k].waiting, c.members[k].deaf))
  }

  lemma NonAdminsAreMembers(ms: Members)
    ensures NonAdmins(ms) <= ms.Keys
  {
  }

  lemma NoneKicked(count: nat, ms: Members)
    ensures SaturatingSub(count, |{} * MarkedIds(ms)|) == count
  {
    assert {} * MarkedIds(ms) == {};
  }

  lemma OneMoreKicked(count: nat, ms: Members, gone: set<Id>, k: Id)
    requires k in ms && k !in gone
    ensures SaturatingSub(count, |(gone + {k}) * MarkedIds(ms)|) ==
            if ms[k].marked then SaturatingSub(SaturatingSub(count, |gone * MarkedIds(ms)|), 1)
            else SaturatingSub(count, |gone * MarkedIds(ms)|)
    ensures ms - gone - {k} == ms - (gone + {k})
  {
    if ms[k].marked {
      assert (gone + {k}) * MarkedIds(ms) == gone * MarkedIds(ms) + {k};
    } else {
      assert (gone + {k}) * MarkedIds(ms) == gone * MarkedIds(ms);
    }
  }

  // ----- The object -----

  class ConferenceObject {
    const settings: Settings
    var members: Members
    var bridge: set<Id>
    var locked: bool
    var allMuted: bool
    var active: bool
    var markedCount: nat
    var lastJoined: Option<Id>

    function State(): Conf
      reads this
    {
      Conf(settings, members, bridge, locked, allMuted, active, markedCount, lastJoined)
    }

    constructor (settings: Settings)
      ensures State() == Empty(settings)
    {
      this.settings := settings;
      members, bridge := map[], {};
      locked, allMuted, active := false, false, false;
      markedCount, lastJoined := 0, None;
    }

    /** `for u in participants.values_mut()`, in whatever order the map has. */
    method UpdateEach(f: Member -> Member)
      modifies this`members
      ensures members == Each(old(members), f)
    {
      var todo := members.Keys;
      ghost var before := members;
      while todo != {}
        invariant members.Keys == before.Keys && todo <= members.Keys
        invariant forall k :: k in members ==> members[k] == if k in todo then before[k] else f(before[k])
      {
        var k :| k in todo;
        members := members[k := f(members[k])];
        todo := todo - {k};
      }
    }

    /** `participants.values().max_by_key(|u| u.join_time)` */
    method Latest() returns (latest: Option<Id>)
      ensures IsLatest(members, latest)
    {
      latest := None;
      var todo := members.Keys;
      while todo != {}
        invariant todo <= members.Keys
        invariant IsLatest(members - todo, latest)
      {
        var k :| k in todo;
        assert members - (todo - {k}) == (members - todo)[k := members[k]];
        if latest.None? || members[latest.value].joinTime <= members[k].joinTime {
          latest := Some(k);
        }
        todo := todo - {k};
      }
      assert members - todo == members;
    }

    method EnterConference(id: Id, user: Member)
      modifies this
      ensures State() == Enter(old(State()), id, user)
    {
      bridge := bridge + {id};
      lastJoined := Some(id);
      var entering := user;
      if settings.waitForMarked && markedCount == 0 && !user.marked {
        entering := entering.(waiting := true, muted := true);
      }
      if allMuted && !user.admin {
        entering := entering.(muted := true);
      }
      members := members[id := entering];
      if user.marked {
        markedCount := markedCount + 1;
        if markedCount == 1 && settings.waitForMarked {
          active := true;
          UpdateEach(Awaken);
        }
      }
    }

    method DetachUser(id: Id) returns (ghost latest: Option<Id>)
      modifies this`members, this`bridge, this`lastJoined
      ensures old(lastJoined) == Some(id) ==> IsLatest(members, latest)
      ensures State() == Detach(old(State()), id, latest)
    {
      members := members - {id};
      bridge := bridge - {id};
      latest := None;
      if lastJoined == Some(id) {
        lastJoined := Latest();
        latest := lastJoined;
      }
    }

    method MarkedLeft() returns (asks: bool)
      modifies this`members, this`markedCount, this`active
      ensures State() == MarkedGone(old(State()))
      ensures asks <==> markedCount == 0 && settings.endWhenMarkedLeaves
    {
      markedCount := SaturatingSub(markedCount, 1);
      asks := markedCount == 0 && settings.endWhenMarkedLeaves;
      if markedCount == 0 && settings.waitForMarked {
        active := false;
        UpdateEach(Rearm);
      }
    }

    /** The first critical section of `leave_conference`. */
    method LeaveSection(id: Id) returns (asks: bool, empty: bool, ghost latest: Option<Id>)
      modifies this
      ensures old(lastJoined) == Some(id) ==> IsLatest(old(members) - {id}, latest)
      ensures State() == Leave(old(State()), id, latest)
      ensures asks <==> AsksForSweep(old(State()), id)
      ensures empty <==> members == map[]
    {
      hide IsLatest, Each;
      var leavesMarked := id in members && members[id].marked;
      latest := DetachUser(id);
      asks := false;
      if leavesMarked {
        asks := MarkedLeft();
      }
      empty := |members| == 0;
    }

    /** The second critical section of `leave_conference`. */
    method SweepSection() returns (empty: bool)
      modifies this
      ensures State() == Sweep(old(State()))
      ensures empty <==> members == map[]
    {
      RemoveAll(NonAdmins(members));
      empty := |members| == 0;
    }

    /** `leave_conference` with nothing happening between its two sections. */
    method LeaveConference(id: Id) returns (destroy: bool, ghost latest: Option<Id>)
      modifies this
      ensures old(lastJoined) == Some(id) ==> IsLatest(old(members) - {id}, latest)
      ensures State() == LeaveAtOnce(old(State()), id, latest)
      ensures destroy <==> members == map[]
    {
      var asks;
      asks, destroy, latest := LeaveSection(id);
      if asks {
        destroy := SweepSection();
      }
    }

    method RemoveAll(out: set<Id>)
      modifies this`members, this`bridge
      ensures members == old(members) - out && bridge == old(bridge) - out
    {
      var todo := out;
      while todo != {}
        invariant todo <= out
        invariant members == old(members) - (out - todo) && bridge == old(bridge) - (out - todo)
      {
        var k :| k in todo;
        members := members - {k};
        bridge := bridge - {k};
        todo := todo - {k};
      }
    }

    method KickUser(id: Id) returns (kicked: bool, ghost latest: Option<Id>)
      modifies this
      ensures kicked <==> id in old(members)
      ensures kicked && old(lastJoined) == Some(id) ==> IsLatest(members, latest)
      ensures State() == Kick(old(State()), id, latest)
    {
      latest := None;
      kicked := id in members;
      if kicked {
        var user := members[id];
        latest := DetachUser(id);
        if user.marked {
          markedCount := SaturatingSub(markedCount, 1);
        }
      }
    }

    method KickAllParticipants() returns (kicked: nat)
      modifies this`members, this`bridge, this`markedCount
      ensures State() == KickAll(old(State()))
      ensures kicked == |NonAdmins(old(members))|
    {
      hide MarkedIds, SaturatingSub, NonAdmins;
      ghost var start, starting, gone := members, markedCount, {};
      NonAdminsAreMembers(members);
      var todo := NonAdmins(members);
      kicked := 0;
      NoneKicked(starting, start);
      while todo != {}
        invariant gone !! todo && gone + todo == NonAdmins(start)
        invariant kicked == |gone|
        invariant members == start - gone && bridge == old(bridge) - gone
        invariant markedCount == SaturatingSub(starting, |gone * MarkedIds(start)|)
      {
        var k :| k in todo;
        OneMoreKicked(starting, start, gone, k);
        assert k in members;
        KickOne(k);
        kicked := kicked + 1;
        todo := todo - {k};
        gone := gone + {k};
      }
    }

    method KickOne(k: Id)
      requires k in members
      modifies this`members, this`bridge, this`markedCount
      ensures members == old(members) - {k} && bridge == old(bridge) - {k}
      ensures markedCount == if old(members[k].marked) then SaturatingSub(old(markedCount), 1) else old(markedCount)
    {
      var user := members[k];
      members := members - {k};
      bridge := bridge - {k};
      if user.marked {
        markedCount := SaturatingSub(markedCount, 1);
      }
    }

    /** The first section of `kick_last`, under a read lock: the last to join, if still in. */
    method PresentLast() returns (last: Option<Id>)
      ensures last.Some? <==> LastIsPresent(State())
      ensures last.Some? ==> forall latest :: KickLast(State(), latest).members == members - {last.value}
      ensures last.Some? ==> last == lastJoined
      ensures last.None? ==> forall latest :: KickLast(State(), latest) == State()
    {
      last := if lastJoined.Some? && lastJoined.value in members then lastJoined else None;
    }

    /** The third section of `kick_last`, after the kick under a lock of its own. */
    method RefreshLast()
      modifies this`lastJoined
      ensures IsLatest(members, lastJoined) && State() == Refresh(old(State()), lastJoined)
    {
      lastJoined := Latest();
    }

    /** `kick_last` with nothing happening between its three sections. */
    method KickLastJoined() returns (kicked: bool, ghost latest: Option<Id>)
      modifies this
      ensures kicked <==> LastIsPresent(old(State()))
      ensures kicked ==> IsLatest(members, latest)
      ensures State() == KickLast(old(State()), latest)
    {
      hide IsLatest;
      kicked, latest := false, None;
      var last := PresentLast();
      if last.Some? {
        kicked, latest := KickUser(last.value);
        if kicked {
          RefreshLast();
        }
        latest := lastJoined;
      }
    }

    method MuteUser(id: Id, muted: bool) returns (found: bool)
      modifies this
      ensures found <==> id in old(members)
      ensures State() == SetMuted(old(State()), id, muted)
    {
      found := id in members;
      if found {
        members := members[id := members[id].(muted := muted)];
      }
    }

    method ToggleMuteParticipants() returns (muted: bool)
      modifies this
      ensures State() == ToggleAllMuted(old(State())) && muted == allMuted
    {
      allMuted := !allMuted;
      muted := allMuted;
      UpdateEach((m: Member) => if m.admin then m else m.(muted := muted));
    }
  }
}
