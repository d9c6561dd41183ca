/** What a request gets, both ways: right credentials are accepted and everything else is
    refused and judged, each action runs exactly when it may, and events arrive exactly when
    they are wanted and allowed (actions.rs, session.rs). */
module Logins {
  import opened Common
  import opened RateLimit
  import opened Session

  // ----- Logins -----

  /** The challenge issued last and not checked since. */
  function Outstanding(history: seq<Step>): Option<string> {
    match Pending(history)
    case None => None
    case Some(j) => Issued(history[j].reply)
  }

  /** A request that carries the account's secret and no key, or whose key is the digest of
      the outstanding challenge, in upper or lower case. */
  ghost predicate RightCredentials(ctx: Context, account: Account, outstanding: Option<string>, req: Request) {
    || (req.key.None? && req.secret == Some(account.secret))
    || (req.key.Some? && outstanding.Some? && SameDigits(ctx.md5(outstanding.value, account.secret), req.key.value))
  }

  /** A digest equals a key but for upper-case letters in the key. */
  ghost predicate SameDigits(digest: string, key: string) {
    && |digest| == |key|
    && forall i :: 0 <= i < |key| ==>
         digest[i] == if 'A' <= key[i] <= 'Z' then (key[i] as int - 'A' as int + 'a' as int) as char else key[i]
  }

  lemma LowerIsSameDigits(digest: string, key: string)
    ensures digest == Lower(key) <==> SameDigits(digest, key)
  {
  }

  lemma LoginPasses(ctx: Context, s: SessionState, throttled: bool, req: Request)
    requires req.name == "login" && "login" in ctx.registered
    ensures ReplyTo(ctx, s, throttled, req) == LoginReply(LoginResult(ctx, throttled, s.challenge, req))
  {
    assert "login" in PREAUTH;
  }

  /** In every history, a registered and unthrottled Login of a known user is accepted, for that
      user's account, if and only if it carries the right credentials. */
  lemma {:induction false} AcceptedExactly(history: seq<Step>, k: nat)
    requires IsHistory(history) && k < |history|
    requires history[k].req.name == "login" && "login" in history[k].ctx.registered && !history[k].throttled
    requires history[k].req.username.Some? && history[k].req.username.value in history[k].ctx.users
    ensures var step := history[k];
            var account := step.ctx.users[step.req.username.value];
            && (IsAccepted(step.reply) <==>
                  RightCredentials(step.ctx, account, Outstanding(history[..k]), step.req))
            && (IsAccepted(step.reply) ==> step.reply.outcome.account == account)
  {
    var step := history[k];
    var account := step.ctx.users[step.req.username.value];
    ShorterHistory(history, k);
    ChallengeIsPending(history[..k]);
    LoginPasses(step.ctx, After(history[..k]), step.throttled, step.req);
    assert (history[..k])[..] == history[..k];
    var outstanding := After(history[..k]).challenge;
    assert outstanding == Outstanding(history[..k]);
    hide After, IsHistory, ReplyTo, Pending, Lower;
    if step.req.key.Some? && outstanding.Some? {
      LowerIsSameDigits(step.ctx.md5(outstanding.value, account.secret), step.req.key.value);
    }
  }

  /** What the limiter is told of a Login: success exactly if it is accepted; a failure exactly
      if it names an unknown user, carries a wrong key or one without a challenge, or a wrong
      secret without a key; and nothing if it is throttled or lacks the name or both. */
  lemma {:induction false} JudgedExactly(ctx: Context, throttled: bool, challenge: Option<string>, req: Request)
    ensures var verdict := VerdictOf(ctx, LoginResult(ctx, throttled, challenge, req));
            var known := req.username.Some? && req.username.value in ctx.users;
            && (verdict == Succeeded <==>
                  !throttled && known && RightCredentials(ctx, ctx.users[req.username.value], challenge, req))
            && (verdict == NotJudged <==>
                  throttled || req.username.None? || (known && req.key.None? && req.secret.None?))
            && (verdict.Failed? ==> verdict.recordedAt == ctx.recordedAt)
  {
    if req.username.Some? && req.username.value in ctx.users && req.key.Some? && challenge.Some? {
      LowerIsSameDigits(ctx.md5(challenge.value, ctx.users[req.username.value].secret), req.key.value);
    }
    hide Lower;
  }

  /** An MD5 response uses the challenge up, right or wrong; nothing else does, and an unknown
      name does not. */
  lemma ChallengeUsedExactly(ctx: Context, s: SessionState, throttled: bool, req: Request)
    requires s.challenge.Some?
    ensures var after := AfterReply(s, req, LoginReply(LoginResult(ctx, throttled, s.challenge, req)));
            after.challenge == None <==>
            !throttled && req.username.Some? && req.username.value in ctx.users && req.key.Some?
  {
    hide Lower;
  }

  // ----- Which actions run -----

  /** The authority of every action the server knows. */
  lemma AuthorityTable(name: string)
    ensures ActionAuthority(name) == Some(Preauth) <==> name == "login" || name == "challenge"
    ensures ActionAuthority(name) == Some(Write({Command})) <==> name == "command"
    ensures ActionAuthority(name) == Some(Write({Category.Config})) <==> name == "updateconfig"
    ensures ActionAuthority(name) == Some(Write({System})) <==>
            name == "originate" || name == "pjsipnotify" || name == "pjsipqualify"
    ensures ActionAuthority(name) == Some(Write({Agent})) <==>
            name == "queueadd" || name == "queueremove" || name == "queuepause"
    ensures ActionAuthority(name) == Some(Write({Call})) <==>
            || name == "redirect" || name == "hangup" || name == "bridge" || name == "park" || name == "setvar"
            || name == "atxfer" || name == "sendtext" || name == "confbridgekick" || name == "confbridgemute"
    ensures ActionAuthority(name) == Some(ReadOnly) <==>
            || name == "logoff" || name == "ping" || name == "events" || name == "corestatus" || name == "coresettings"
            || name == "coreshowchannels" || name == "status" || name == "getconfig" || name == "getvar"
            || name == "listcategories" || name == "listcommands" || name == "rtpstats" || name == "showdialplan"
            || name == "queuestatus" || name == "meetmelist" || name == "confbridgelist" || name == "waitfullybooted"
            || name == "pjsipshowendpoints" || name == "pjsipshowendpoint"
            || name == "pjsipshowregistrationsinbound" || name == "pjsipshowregistrationsoutbound"
    ensures var a := ActionAuthority(name);
            a.None? || a.value.Preauth? || a.value.ReadOnly?
            || a.value.required in {{Command}, {Category.Config}, {System}, {Agent}, {Call}}
  {
    assert Command in {Command} && Category.Config in {Category.Config} && System in {System};
    assert Agent in {Agent} && Call in {Call};
  }

  /** A read-only action runs if and only if it is registered and a Login is in force, and a
      Logoff then ends that Login. */
  lemma {:induction false} ReadOnlyRunsExactly(history: seq<Step>, k: nat)
    requires IsHistory(history) && k < |history| && ActionAuthority(history[k].req.name) == Some(ReadOnly)
    ensures history[k].reply.HandlerRan? || history[k].reply.LoggedOff? <==>
            history[k].req.name in history[k].ctx.registered && exists i: nat :: InForce(history[..k], i)
    ensures history[k].reply.LoggedOff? ==>
              history[k].req.name == "logoff" && !After(history[..k + 1]).authenticated
    ensures history[k].reply.HandlerRan? ==> history[k].req.name != "logoff"
  {
    var s, step := After(history[..k]), history[k];
    assert step.reply == ReplyTo(step.ctx, s, step.throttled, step.req);
    hide ActionAuthority, ReplyTo, InForce, After, AfterReply, IsHistory;
    SessionIsItsHistory(history[..k]);
    ReadOnlyGate(step.ctx, s, step.throttled, step.req);
    LogoffEnds(history, k);
  }

  lemma LogoffEnds(history: seq<Step>, k: nat)
    requires k < |history|
    ensures history[k].reply.LoggedOff? ==> !After(history[..k + 1]).authenticated
  {
    assert history[..k + 1][..k] == history[..k];
  }

  lemma ReadOnlyGate(ctx: Context, s: SessionState, throttled: bool, req: Request)
    requires ActionAuthority(req.name) == Some(ReadOnly)
    ensures var reply := ReplyTo(ctx, s, throttled, req);
            && (reply.HandlerRan? || reply.LoggedOff? <==> s.authenticated && req.name in ctx.registered)
            && (reply.LoggedOff? ==> req.name == "logoff") && (reply.HandlerRan? ==> req.name != "logoff")
  {
    AuthorityTable(req.name);
    hide ActionAuthority;
  }

  lemma Md5Spellings(authType: Option<string>)
    ensures IsMd5(authType) <==> authType in {None, Some("md5"), Some("MD5"), Some("Md5"), Some("mD5")}
  {
    if authType.Some? {
      var a := authType.value;
      if |a| == 3 {
        assert a == [a[0], a[1], a[2]];
      }
    }
  }

  /** A challenge is issued if and only if it is asked for with MD5 or without a type, and is
      then outstanding. */
  lemma {:induction false} ChallengeIssuedExactly(history: seq<Step>, k: nat)
    requires IsHistory(history) && k < |history|
    requires history[k].req.name == "challenge" && "challenge" in history[k].ctx.registered
    ensures var md5 := history[k].req.authType in {None, Some("md5"), Some("MD5"), Some("Md5"), Some("mD5")};
            && Issued(history[k].reply) == (if md5 then Some(history[k].ctx.challenge) else None)
            && (md5 ==> Outstanding(history[..k + 1]) == Some(history[k].ctx.challenge))
  {
    var s, step := After(history[..k]), history[k];
    Md5Spellings(step.req.authType);
    hide IsMd5;
    assert "challenge" in PREAUTH;
    assert history[..k + 1][k] == history[k];
  }

  // ----- Events -----

  /** Step `j` set the event mask. */
  predicate SetsMask(step: Step) {
    step.req.name == "events" && step.req.mask.Some? && step.reply.HandlerRan?
  }

  ghost predicate LastMask(history: seq<Step>, j: nat) {
    j < |history| && SetsMask(history[j]) && forall h :: j < h < |history| ==> !SetsMask(history[h])
  }

  /** What the mask set last lets through: everything if none was set. */
  ghost predicate Wanted(history: seq<Step>, event: Categories) {
    && (forall j: nat :: LastMask(history, j) ==>
          match history[j].req.mask.value
          case Off => false
          case On => event != {}
          case Only(categories) => Intersects(categories, event))
    && ((forall j: nat :: !LastMask(history, j)) ==> event != {})
  }

  lemma EveryCategory(c: Category)
    ensures c in ALL
  {
  }

  lemma AllMeetsAny(event: Categories)
    ensures Intersects(ALL, event) <==> event != {}
  {
    if c :| c in event {
      EveryCategory(c);
      assert c in ALL * event;
    } else {
      assert ALL * event == {};
    }
  }

  lemma {:induction false} MaskStays(history: seq<Step>, event: Categories)
    requires history != [] && !SetsMask(history[|history| - 1])
    ensures Wanted(history, event) <==> Wanted(history[..|history| - 1], event)
  {
    var n := |history| - 1;
    assert forall h :: 0 <= h < n ==> history[..n][h] == history[h];
    forall j: nat
      ensures LastMask(history, j) <==> LastMask(history[..n], j)
    {
    }
    hide LastMask, SetsMask;
  }

  lemma {:induction false} MaskIsNew(history: seq<Step>, event: Categories)
    requires history != [] && SetsMask(history[|history| - 1])
    ensures Wanted(history, event) <==>
            match history[|history| - 1].req.mask.value
            case Off => false
            case On => event != {}
            case Only(categories) => Intersects(categories, event)
  {
    var n := |history| - 1;
    assert LastMask(history, n) && forall j: nat :: LastMask(history, j) ==> j == n;
    hide LastMask, SetsMask, Intersects;
  }

  /** What one reply does to the mask. */
  ghost predicate MaskMoves(before: SessionState, step: Step, after: SessionState) {
    if SetsMask(step) then
      match step.req.mask.value
      case Off => !after.eventsEnabled
      case On => after.eventsEnabled && after.eventFilter == ALL
      case Only(categories) => after.eventsEnabled && after.eventFilter == categories
    else after.eventsEnabled == before.eventsEnabled && after.eventFilter == before.eventFilter
  }

  lemma ReplyMovesMask(s: SessionState, step: Step)
    ensures MaskMoves(s, step, AfterReply(s, step.req, step.reply))
  {
    hide ALL;
  }

  lemma MaskAfter(history: seq<Step>)
    requires history != []
    ensures MaskMoves(After(history[..|history| - 1]), history[|history| - 1], After(history))
  {
    ReplyMovesMask(After(history[..|history| - 1]), history[|history| - 1]);
    hide MaskMoves, AfterReply;
  }

  /** The session's mask is the last one set, whatever Logins come and go. */
  lemma {:induction false} MaskIsLastSet(history: seq<Step>, event: Categories)
    ensures After(history).eventsEnabled && Intersects(After(history).eventFilter, event) <==> Wanted(history, event)
  {
    AllMeetsAny(event);
    if history == [] {
      hide ALL, Intersects;
    } else {
      hide ALL, Intersects, After, Wanted, SetsMask;
      MaskIsLastSet(history[..|history| - 1], event);
      MaskAfter(history);
      if SetsMask(history[|history| - 1]) {
        MaskIsNew(history, event);
      } else {
        MaskStays(history, event);
      }
    }
  }

  /** An event reaches a session if and only if a verified Login is in force whose account may
      read it and the mask set last lets it through. */
  lemma {:induction false} EventsReceivedExactly(history: seq<Step>, event: Categories)
    ensures ShouldReceive(After(history), event) <==>
            && Wanted(history, event)
            && exists i: nat :: InForce(history, i) && Intersects(history[i].reply.outcome.account.readPerm, event)
  {
    SessionIsItsHistory(history);
    MaskIsLastSet(history, event);
    hide After, Wanted, Intersects;
  }
}
