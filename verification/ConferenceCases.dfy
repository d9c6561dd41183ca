/** Runs of a conference that end where a promise fails. Each starts with an unmarked admin
    and a marked guest, and ends in a state the conference survives in. */
module ConferenceCases {
  import opened Common
  import opened Conference
  import opened ConferenceRuns

  /** Settings under which an admin waits for a marked user and there is room for both. */
  ghost predicate WaitsWithRoom(settings: Settings) {
    settings.waitForMarked && (settings.maxMembers == 0 || settings.maxMembers >= 2)
  }

  ghost predicate HostAndGuest(host: Member, guest: Member) {
    && host.admin && !host.marked && !host.waiting
    && !guest.admin && guest.marked && !guest.waiting
  }

  function Awake(m: Member): Member { m.(waiting := false, muted := false) }

  /** The host and the guest are in, and the guest joined last. */
  function BothIn(settings: Settings, host: Member, guest: Member): Sys {
    var members := map[0 := Awake(host), 1 := guest];
    Sys(Conf(settings, members, {0, 1}, false, false, true, 1, Some(1)), map[], {0, 1}, 0)
  }

  lemma {:induction false} JoinReached(settings: Settings, limit: nat, s: Sys, id: Id, m: Member) returns (t: Sys)
    requires Reachable(settings, limit, s) && limit >= 1
    requires s.joining == map[] && id !in s.inside && id !in s.conf.members && !m.waiting && MayJoin(s.conf, m.admin)
    ensures Reachable(settings, limit, t) && t == Sys(Enter(s.conf, id, m), map[], s.inside + {id}, s.sweeps)
  {
    hide Reachable, Enter;
    ReachableStep(settings, limit, s, CheckJoin(id, m));
    var checked := Take(s, CheckJoin(id, m));
    ReachableStep(settings, limit, checked, Insert(id));
    t := Take(checked, Insert(id));
    assert t.joining == map[];
  }

  lemma StartReached(settings: Settings, limit: nat)
    ensures Reachable(settings, limit, Sys(Empty(settings), map[], {}, 0))
  {
    assert IsRun(settings, limit, [Sys(Empty(settings), map[], {}, 0)], []);
  }

  /** The host waits, and the marked guest ends the waiting. */
  lemma {:induction false} Together(settings: Settings, limit: nat, host: Member, guest: Member) returns (s: Sys)
    requires WaitsWithRoom(settings) && limit >= 1 && HostAndGuest(host, guest)
    ensures Reachable(settings, limit, s)
    ensures s == BothIn(settings, host, guest)
  {
    hide Reachable;
    StartReached(settings, limit);
    var alone := JoinReached(settings, limit, Sys(Empty(settings), map[], {}, 0), 0, host);
    assert alone.conf.members == map[0 := Rearm(host)] && alone.conf.bridge == {0};
    assert |alone.conf.members| == 1;
    s := JoinReached(settings, limit, alone, 1, guest);
    assert s.conf.members == map[0 := Awake(host), 1 := guest];
    assert s.conf.bridge == {0, 1} && s.inside == {0, 1};
  }

  /** The guest leaves, and the host waits again. */
  lemma {:induction false} GuestLeaves(settings: Settings, limit: nat, s: Sys, host: Member, guest: Member)
      returns (t: Sys)
    requires WaitsWithRoom(settings) && settings.endWhenMarkedLeaves && HostAndGuest(host, guest)
    requires Reachable(settings, limit, s)
    requires s == BothIn(settings, host, guest)
    ensures Reachable(settings, limit, t)
    ensures t == Sys(Conf(settings, map[0 := Rearm(host)], {0}, false, false, false, 0, Some(0)), map[], {0}, 1)
  {
    hide Reachable;
    assert s.conf.members - {1} == map[0 := Awake(host)];
    ReachableStep(settings, limit, s, LeaveFirst(1, Some(0)));
    t := Take(s, LeaveFirst(1, Some(0)));
    assert t.conf.members == map[0 := Rearm(host)];
    assert t.conf.bridge == {0} && t.inside == {0};
  }

  /** A marked user who joins between the two sections of a leave is swept out uncounted. The
      host is left alone and awake in a conference that still counts a marked user. */
  lemma {:induction false} SweepLosesCount(settings: Settings, limit: nat, host: Member, guest: Member) returns (t: Sys)
    requires WaitsWithRoom(settings) && settings.endWhenMarkedLeaves && limit >= 1 && HostAndGuest(host, guest)
    ensures Reachable(settings, limit, t) && t.joining == map[] && t.sweeps == 0
    ensures t.conf.members == map[0 := Awake(host)]
    ensures MarkedIds(t.conf.members) == {} && t.conf.markedCount == 1
  {
    var s := Together(settings, limit, host, guest);
    var left := GuestLeaves(settings, limit, s, host, guest);
    hide Reachable;
    assert |left.conf.members| == 1;
    var joined := JoinReached(settings, limit, left, 2, guest);
    assert joined.conf.members == map[0 := Awake(host), 2 := guest];
    assert NonAdmins(joined.conf.members) == {2};
    ReachableStep(settings, limit, joined, SweepNonAdmins);
    t := Take(joined, SweepNonAdmins);
    assert t.conf.members == map[0 := Awake(host)];
  }

  /** Kicking the last marked user, alone or with all non-admins, leaves the host awake though
      no marked user is counted. */
  lemma {:induction false} KicksEndWaiting(settings: Settings, limit: nat, host: Member, guest: Member) returns (s: Sys)
    requires WaitsWithRoom(settings) && limit >= 1 && HostAndGuest(host, guest)
    ensures Reachable(settings, limit, s) && AllWait(s.conf)
    ensures var one, all := Take(s, KickOne(1, Some(0))), Take(s, KickEveryone);
            && Reachable(settings, limit, one) && !AllWait(one.conf)
            && Reachable(settings, limit, all) && !AllWait(all.conf)
  {
    s := Together(settings, limit, host, guest);
    hide Reachable;
    var c := s.conf;
    assert c.members - {1} == map[0 := Awake(host)];
    assert NonAdmins(c.members) == {1} && MarkedIds(c.members) == {1};
    assert {1} * {1} == {1};
    ReachableStep(settings, limit, s, KickOne(1, Some(0)));
    ReachableStep(settings, limit, s, KickEveryone);
    assert 0 in Kick(c, 1, Some(0)).members && 0 in KickAll(c).members;
  }

  /** Kicking all non-admins leaves the guest on record as the last to join, and `kick_last`
      has nothing to do in a conference that is not empty. */
  lemma {:induction false} KickAllLeavesStale(settings: Settings, limit: nat, host: Member, guest: Member)
      returns (s: Sys)
    requires WaitsWithRoom(settings) && limit >= 1 && HostAndGuest(host, guest) && host.joinTime <= guest.joinTime
    ensures Reachable(settings, limit, s) && LastIsLatest(s.conf) && !KeepsLast(s, KickEveryone)
    ensures var t := Take(s, KickEveryone);
            && Reachable(settings, limit, t) && t.conf.members == map[0 := Awake(host)]
            && !LastIsLatest(t.conf) && forall latest :: KickLast(t.conf, latest) == t.conf
  {
    s := Together(settings, limit, host, guest);
    hide Reachable;
    assert NonAdmins(s.conf.members) == {1};
    ReachableStep(settings, limit, s, KickEveryone);
    LastKeptExactly(limit, s, KickEveryone);
    var t := Take(s, KickEveryone);
    assert t.conf.members == map[0 := Awake(host)];
    forall latest
      ensures KickLast(t.conf, latest) == t.conf
    {
      StaleKickLast(t.conf, latest);
    }
  }
}
