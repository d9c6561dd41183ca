/** Authorisation of AMI sessions (actions.rs `action_authority`, `dispatch` and the login
    handlers; session.rs `AmiSession`): what a session may do is determined by the
    history of its verified logins and logoffs. */
module Session {
  import opened Common
  import opened RateLimit
  import AmiProtocol

  // ----- Permissions -----

  datatype Category = System | Call | Log | Verbose | Command | Agent | User | Config
                    | Dtmf | Reporting | Cdr | Dialplan | Security

  /** `EventCategory`, a bit mask. */
  type Categories = set<Category>

  /** `EventCategory::contains`: some category in common. */
  predicate Intersects(a: Categories, b: Categories) {
    a * b != {}
  }

  datatype Authority = Preauth | ReadOnly | Write(required: Categories)

  const PREAUTH := {"login", "challenge"}
  const CALL_ACTIONS := {"redirect", "hangup", "bridge", "park", "setvar", "atxfer", "sendtext",
                         "confbridgekick", "confbridgemute"}
  const READ_ONLY := {"logoff", "ping", "events", "corestatus", "coresettings", "coreshowchannels",
                      "status", "getconfig", "getvar", "listcategories", "listcommands", "rtpstats",
                      "showdialplan", "queuestatus", "meetmelist", "confbridgelist", "waitfullybooted",
                      "pjsipshowendpoints", "pjsipshowendpoint", "pjsipshowregistrationsinbound",
                      "pjsipshowregistrationsoutbound"}

  /** `action_authority`, by lowercased name. */
  function ActionAuthority(name: string): Option<Authority> {
    if name in PREAUTH then Some(Preauth)
    else if name == "command" then Some(Write({Command}))
    else if name == "updateconfig" then Some(Write({Category.Config}))
    else if name in {"originate", "pjsipnotify", "pjsipqualify"} then Some(Write({System}))
    else if name in {"queueadd", "queueremove", "queuepause"} then Some(Write({Agent}))
    else if name in CALL_ACTIONS then Some(Write({Call}))
    else if name in READ_ONLY then Some(ReadOnly)
    else None
  }

  // ----- Requests and replies -----

  datatype Account = Account(username: string, secret: string, readPerm: Categories, writePerm: Categories)

  /** The parts of an action that the login handlers and `Events` read; `name` is lowercased. */
  datatype Request = Request(name: string, username: Option<string>, key: Option<string>,
                             secret: Option<string>, authType: Option<string>, mask: Option<EventMask>)

  datatype EventMask = Off | On | Only(categories: Categories)

  /** What surrounds one dispatch: the user registry and handler names at that moment, the
      clock at the limiter's check and record, a newly drawn challenge and the digest. */
  datatype Context = Context(users: map<string, Account>, registered: set<string>,
                             checkedAt: nat, recordedAt: nat,
                             challenge: string, md5: (string, string) -> string)

  /** How a Login ends. `checked` is the challenge an MD5 response was verified against. */
  datatype LoginOutcome = Throttling | UsernameMissing | Rejected(checked: Option<string>) | NoChallenge
                        | SecretMissing | Accepted(account: Account, checked: Option<string>)

  datatype Reply = PermissionDenied | UnknownCommand | LoginReply(outcome: LoginOutcome)
                 | ChallengeReply(issued: Option<string>) | LoggedOff | HandlerRan

  // ----- Session state -----

  datatype SessionState = SessionState(authenticated: bool, username: Option<string>,
                                       readPerm: Categories, writePerm: Categories,
                                       eventFilter: Categories, eventsEnabled: bool,
                                       challenge: Option<string>)

  const ALL: Categories := {System, Call, Log, Verbose, Command, Agent, User, Category.Config,
                            Dtmf, Reporting, Cdr, Dialplan, Security}

  const FRESH := SessionState(false, None, {}, {}, ALL, true, None)

  predicate ShouldReceive(s: SessionState, event: Categories) {
    s.authenticated && s.eventsEnabled && Intersects(s.readPerm, event) && Intersects(s.eventFilter, event)
  }

  function Lower(s: string): string {
    seq(|s|, i requires 0 <= i < |s| => AmiProtocol.AsciiLower(s[i]))
  }

  /** Credentials hold up: an MD5 response to the pending challenge, else the secret. */
  predicate Verifies(ctx: Context, account: Account, challenge: Option<string>, req: Request) {
    if req.key.Some? then
      challenge.Some? && ctx.md5(challenge.value, account.secret) == Lower(req.key.value)
    else
      req.secret.Some? && req.secret.value == account.secret
  }

  /** `handle_login`, once the limiter has spoken. */
  function LoginResult(ctx: Context, throttled: bool, challenge: Option<string>, req: Request): LoginOutcome {
    if throttled then Throttling
    else if req.username.None? then UsernameMissing
    else if req.username.value !in ctx.users then Rejected(None)
    else
      var account := ctx.users[req.username.value];
      if req.key.Some? && challenge.None? then NoChallenge
      else if req.key.None? && req.secret.None? then SecretMissing
      else
        var checked := if req.key.Some? then challenge else None;
        if Verifies(ctx, account, challenge, req) then Accepted(account, checked) else Rejected(checked)
  }

  predicate IsMd5(authType: Option<string>) {
    authType.None? || AmiProtocol.SameIgnoringCase(authType.value, "md5")
  }

  /** The authentication gate, the write gate and the fail-closed backstop of `dispatch`. */
  function Gate(ctx: Context, s: SessionState, name: string): Option<Reply> {
    var authority := ActionAuthority(name);
    if authority != Some(Preauth) && !s.authenticated then Some(PermissionDenied)
    else if authority.Some? && authority.value.Write? && !Intersects(s.writePerm, authority.value.required)
    then Some(PermissionDenied)
    else if name !in ctx.registered then Some(UnknownCommand)
    else if authority.None? then Some(PermissionDenied)
    else None
  }

  function ReplyTo(ctx: Context, s: SessionState, throttled: bool, req: Request): Reply {
    match Gate(ctx, s, req.name)
    case Some(refusal) => refusal
    case None =>
      if req.name == "login" then LoginReply(LoginResult(ctx, throttled, s.challenge, req))
      else if req.name == "logoff" then LoggedOff
      else if req.name == "challenge" then ChallengeReply(if IsMd5(req.authType) then Some(ctx.challenge) else None)
      else HandlerRan
  }

  /** What a reply leaves behind in the session. */
  function AfterReply(s: SessionState, req: Request, reply: Reply): SessionState {
    match reply
    case LoginReply(Accepted(account, checked)) =>
      s.(authenticated := true, username := Some(account.username), readPerm := account.readPerm,
         writePerm := account.writePerm, challenge := if checked.Some? then None else s.challenge)
    case LoginReply(Rejected(Some(_))) => s.(challenge := None)
    case LoggedOff => s.(authenticated := false, username := None)
    case ChallengeReply(Some(c)) => s.(challenge := Some(c))
    case HandlerRan =>
      if req.name == "events" && req.mask.Some? then
        match req.mask.value
        case Off => s.(eventsEnabled := false)
        case On => s.(eventsEnabled := true, eventFilter := ALL)
        case Only(categories) => s.(eventsEnabled := true, eventFilter := categories)
      else s
    case _ => s
  }

  /** What a reply means to the limiter. */
  function VerdictOf(ctx: Context, outcome: LoginOutcome): Verdict {
    match outcome
    case Accepted(_, _) => Succeeded
    case Rejected(_) => Failed(ctx.recordedAt)
    case NoChallenge => Failed(ctx.recordedAt)
    case _ => NotJudged
  }

  // ----- The session object -----

  class AmiSession {
    const ip: Ip
    var authenticated: bool
    var username: Option<string>
    var readPerm: Categories
    var writePerm: Categories
    var eventFilter: Categories
    var eventsEnabled: bool
    var challenge: Option<string>

    function State(): SessionState
      reads this
    {
      SessionState(authenticated, username, readPerm, writePerm, eventFilter, eventsEnabled, challenge)
    }

    constructor (ip: Ip)
      ensures State() == FRESH && this.ip == ip
    {
      this.ip := ip;
      authenticated, username := false, None;
      readPerm, writePerm := {}, {};
      eventFilter, eventsEnabled := ALL, true;
      challenge := None;
    }

    method Authenticate(account: Account)
      modifies this
      ensures State() == old(State()).(authenticated := true, username := Some(account.username),
                                       readPerm := account.readPerm, writePerm := account.writePerm)
    {
      authenticated := true;
      username := Some(account.username);
      readPerm := account.readPerm;
      writePerm := account.writePerm;
    }

    /** `handle_login` */
    method HandleLogin(limiter: LoginRateLimiter, ctx: Context, req: Request) returns (outcome: LoginOutcome)
      modifies this, limiter
      ensures var throttled := Throttled(limiter.config, Entry(old(limiter.byIp), ip), ctx.checkedAt);
              && outcome == LoginResult(ctx, throttled, old(challenge), req)
              && State() == AfterReply(old(State()), req, LoginReply(outcome))
      ensures LimiterSaw(limiter.config, old(limiter.byIp), limiter.byIp,
                         Login(ip, ctx.checkedAt, VerdictOf(ctx, outcome)))
    {
      var retry := limiter.Check(ip, ctx.checkedAt);
      if retry.Some? {
        return Throttling;
      }
      if req.username.None? {
        return UsernameMissing;
      }
      if req.username.value !in ctx.users {
        limiter.RecordFailure(ip, ctx.recordedAt);
        return Rejected(None);
      }
      var account := ctx.users[req.username.value];
      if req.key.Some? {
        var taken := challenge;
        challenge := None;
        if taken.None? {
          limiter.RecordFailure(ip, ctx.recordedAt);
          return NoChallenge;
        }
        if ctx.md5(taken.value, account.secret) == Lower(req.key.value) {
          limiter.RecordSuccess(ip);
          Authenticate(account);
          return Accepted(account, taken);
        }
        limiter.RecordFailure(ip, ctx.recordedAt);
        return Rejected(taken);
      }
      if req.secret.None? {
        return SecretMissing;
      }
      if req.secret.value == account.secret {
        limiter.RecordSuccess(ip);
        Authenticate(account);
        return Accepted(account, None);
      }
      limiter.RecordFailure(ip, ctx.recordedAt);
      return Rejected(None);
    }

    /** `dispatch`, with the handlers that touch the session spelled out. */
    method Dispatch(limiter: LoginRateLimiter, ctx: Context, req: Request) returns (reply: Reply)
      modifies this, limiter
      ensures var throttled := Throttled(limiter.config, Entry(old(limiter.byIp), ip), ctx.checkedAt);
              && reply == ReplyTo(ctx, old(State()), throttled, req)
              && State() == AfterReply(old(State()), req, reply)
      ensures if reply.LoginReply?
              then LimiterSaw(limiter.config, old(limiter.byIp), limiter.byIp,
                              Login(ip, ctx.checkedAt, VerdictOf(ctx, reply.outcome)))
              else limiter.byIp == old(limiter.byIp)
    {
      hide ActionAuthority;
      var authority := ActionAuthority(req.name);
      if authority != Some(Preauth) && !authenticated {
        return PermissionDenied;
      }
      if authority.Some? && authority.value.Write? && !Intersects(writePerm, authority.value.required) {
        return PermissionDenied;
      }
      if req.name !in ctx.registered {
        return UnknownCommand;
      }
      if authority.None? {
        return PermissionDenied;
      }
      if req.name == "login" {
        var outcome := HandleLogin(limiter, ctx, req);
        reply := LoginReply(outcome);
      } else if req.name == "logoff" {
        authenticated := false;
        username := None;
        reply := LoggedOff;
      } else if req.name == "challenge" {
        if IsMd5(req.authType) {
          challenge := Some(ctx.challenge);
          reply := ChallengeReply(Some(ctx.challenge));
        } else {
          reply := ChallengeReply(None);
        }
      } else {
        if req.name == "events" && req.mask.Some? {
          match req.mask.value
          case Off => eventsEnabled := false;
          case On => eventsEnabled, eventFilter := true, ALL;
          case Only(categories) => eventsEnabled, eventFilter := true, categories;
        }
        reply := HandlerRan;
      }
    }
  }

  /** The limiter's map moved as one login of the kind `RateLimit` reasons about. */
  ghost predicate LimiterSaw(cfg: RateLimit.Config, before: map<Ip, Attempts>, after: map<Ip, Attempts>, login: Login) {
    after == Put(before, login.ip, AfterLogin(cfg, Entry(before, login.ip), login))
  }

  // ----- Histories -----

  /** One dispatched request, whether the limiter had its source blocked, and the reply. */
  datatype Step = Step(ctx: Context, req: Request, throttled: bool, reply: Reply)

  /** The session after a history. */
  function After(history: seq<Step>): SessionState {
    if history == [] then FRESH
    else
      var last := history[|history| - 1];
      AfterReply(After(history[..|history| - 1]), last.req, last.reply)
  }

  /** Every reply is the one `dispatch` gives in the state the history leads to. */
  ghost predicate IsHistory(history: seq<Step>) {
    forall i :: 0 <= i < |history| ==>
      history[i].reply == ReplyTo(history[i].ctx, After(history[..i]), history[i].throttled, history[i].req)
  }

  predicate IsAccepted(reply: Reply) {
    reply.LoginReply? && reply.outcome.Accepted?
  }

  /** `i` is the most recent verified Login, and no Logoff came after it. */
  ghost predicate InForce(history: seq<Step>, i: nat) {
    && i < |history| && IsAccepted(history[i].reply)
    && forall j :: i < j < |history| ==> !IsAccepted(history[j].reply) && !history[j].reply.LoggedOff?
  }

  /** The session is authenticated exactly while some verified Login is in force, and then
      carries that account's name and permissions. */
  lemma {:induction false} SessionIsItsHistory(history: seq<Step>)
    ensures After(history).authenticated <==> exists i: nat :: InForce(history, i)
    ensures After(history).authenticated <==> After(history).username.Some?
    ensures forall i: nat :: InForce(history, i) ==>
              var account := history[i].reply.outcome.account;
              && After(history).username == Some(account.username)
              && After(history).readPerm == account.readPerm
              && After(history).writePerm == account.writePerm
  {
    if history != [] {
      var n := |history| - 1;
      var before, last := history[..n], history[n];
      SessionIsItsHistory(before);
      if IsAccepted(last.reply) {
        assert InForce(history, n);
      } else if !last.reply.LoggedOff? {
        forall i: nat
          ensures InForce(history, i) <==> InForce(before, i)
        {
          assert forall j :: 0 <= j < n ==> before[j] == history[j];
        }
      } else {
        assert forall i: nat :: i < n ==> !InForce(history, i);
      }
    }
  }

  /** A write handler runs exactly when a verified Login is in force whose account may
      write one of the required categories (and the handler is registered). */
  lemma {:induction false} WriteNeedsLogin(history: seq<Step>, k: nat)
    requires IsHistory(history) && k < |history|
    requires var a := ActionAuthority(history[k].req.name); a.Some? && a.value.Write?
    ensures history[k].reply.HandlerRan? <==>
            && history[k].req.name in history[k].ctx.registered
            && exists i: nat :: InForce(history[..k], i)
                 && Intersects(history[..k][i].reply.outcome.account.writePerm,
                               ActionAuthority(history[k].req.name).value.required)
    ensures After(history[..k + 1]) == After(history[..k])
  {
    hide ActionAuthority, ReplyTo;
    var s, step := After(history[..k]), history[k];
    assert history[..k + 1][..k] == history[..k];
    WriteGate(step.ctx, s, step.throttled, step.req);
    SessionIsItsHistory(history[..k]);
  }

  lemma WriteGate(ctx: Context, s: SessionState, throttled: bool, req: Request)
    requires var a := ActionAuthority(req.name); a.Some? && a.value.Write?
    ensures var reply := ReplyTo(ctx, s, throttled, req);
            && (reply.HandlerRan? <==>
                  && s.authenticated && req.name in ctx.registered
                  && Intersects(s.writePerm, ActionAuthority(req.name).value.required))
            && (reply.HandlerRan? || reply.PermissionDenied? || reply.UnknownCommand?)
            && (reply.HandlerRan? ==> AfterReply(s, req, reply) == s)
  {
    WriteNames(req.name);
    hide ActionAuthority;
  }

  lemma WriteNames(name: string)
    requires var a := ActionAuthority(name); a.Some? && a.value.Write?
    ensures name != "login" && name != "logoff" && name != "challenge" && name != "events"
  {
  }

  /** Nothing but the login handshake runs unauthenticated, and nothing unclassified runs
      at all, registered or not. */
  lemma {:induction false} FailClosed(history: seq<Step>, k: nat)
    requires IsHistory(history) && k < |history|
    requires history[k].reply.HandlerRan? || history[k].reply.LoggedOff?
    ensures exists i: nat :: InForce(history[..k], i)
    ensures ActionAuthority(history[k].req.name).Some?
  {
    SessionIsItsHistory(history[..k]);
  }

  /** Events reach a session only while a verified Login is in force that may read them. */
  lemma {:induction false} EventsNeedLogin(history: seq<Step>, event: Categories)
    requires ShouldReceive(After(history), event)
    ensures exists i: nat :: InForce(history, i) && Intersects(history[i].reply.outcome.account.readPerm, event)
  {
    SessionIsItsHistory(history);
  }

  // ----- Challenges -----

  function Issued(reply: Reply): Option<string> {
    if reply.ChallengeReply? then reply.issued else None
  }

  /** The challenge this reply verified an MD5 response against. */
  function Checked(reply: Reply): Option<string> {
    if reply.LoginReply? && (reply.outcome.Accepted? || reply.outcome.Rejected?) then reply.outcome.checked else None
  }

  /** Which step issued the challenge that is still unanswered. */
  function Pending(history: seq<Step>): (r: Option<nat>)
    ensures r.Some? ==> r.value < |history|
  {
    if history == [] then None
    else
      var n := |history| - 1;
      if Issued(history[n].reply).Some? then Some(n)
      else if Checked(history[n].reply).Some? then None
      else Pending(history[..n])
  }

  lemma {:induction false} ChallengeIsPending(history: seq<Step>)
    requires IsHistory(history)
    ensures After(history).challenge ==
            match Pending(history) case None => None case Some(j) => Issued(history[j].reply)
  {
    if history != [] {
      var n := |history| - 1;
      ShorterHistory(history, n);
      ChallengeIsPending(history[..n]);
      ChallengeStep(history);
      hide After, IsHistory, Issued, Checked;
    }
  }

  /** Only issuing and using up a challenge change it. */
  lemma ChallengeStep(history: seq<Step>)
    requires history != []
    ensures var last := history[|history| - 1].reply;
            After(history).challenge ==
            if Issued(last).Some? then Issued(last)
            else if Checked(last).Some? then None
            else After(history[..|history| - 1]).challenge
  {
  }

  lemma ShorterHistory(history: seq<Step>, n: nat)
    requires IsHistory(history) && n <= |history|
    ensures IsHistory(history[..n])
  {
    forall i | 0 <= i < n
      ensures history[..n][..i] == history[..i]
    {
    }
  }

  function Count(history: seq<Step>, p: Reply -> bool): nat {
    if history == [] then 0
    else Count(history[..|history| - 1], p) + (if p(history[|history| - 1].reply) then 1 else 0)
  }

  /** An MD5 check uses the challenge pending when it is made, and uses it up. */
  lemma {:induction false} CheckUsesPending(history: seq<Step>, i: nat)
    requires IsHistory(history) && i < |history| && Checked(history[i].reply).Some?
    ensures Pending(history[..i]).Some?
    ensures Checked(history[i].reply) == Issued(history[Pending(history[..i]).value].reply)
    ensures Pending(history[..i + 1]) == None
  {
    ShorterHistory(history, i);
    ChallengeIsPending(history[..i]);
    assert history[..i + 1][..i] == history[..i];
  }

  lemma {:induction false} PendingIsLater(history: seq<Step>, i: nat, j: nat)
    requires i <= j <= |history| && Pending(history[..i]) == None
    ensures Pending(history[..j]).Some? ==> i <= Pending(history[..j]).value
    decreases j
  {
    if i < j {
      assert history[..j][..j - 1] == history[..j - 1];
      PendingIsLater(history, i, j - 1);
    }
  }

  /** Each issued challenge is checked at most once: two checks never go back to the same
      challenge, so there are never more checks than challenges. */
  lemma {:induction false} ChallengesAreSingleUse(history: seq<Step>, i: nat, k: nat)
    requires IsHistory(history) && i < k < |history|
    requires Checked(history[i].reply).Some? && Checked(history[k].reply).Some?
    ensures Pending(history[..i]).Some? && Pending(history[..k]).Some?
    ensures Pending(history[..i]).value < i < Pending(history[..k]).value
  {
    CheckUsesPending(history, i);
    CheckUsesPending(history, k);
    PendingIsLater(history, i + 1, k);
  }

  lemma {:induction false} ChecksAtMostChallenges(history: seq<Step>)
    requires IsHistory(history)
    ensures Count(history, r => Checked(r).Some?) + (if Pending(history).Some? then 1 else 0)
            <= Count(history, r => Issued(r).Some?)
  {
    if history != [] {
      var n := |history| - 1;
      ShorterHistory(history, n);
      ChecksAtMostChallenges(history[..n]);
      if Checked(history[n].reply).Some? {
        CheckUsesPending(history, n);
      }
    }
  }

  /** A Login is accepted only for a registered account, and only on its secret or on the
      digest of the challenge that was issued last and not answered since. */
  lemma {:induction false} AcceptedIsVerified(history: seq<Step>, i: nat)
    requires IsHistory(history) && i < |history| && IsAccepted(history[i].reply)
    ensures var (ctx, req, account) := (history[i].ctx, history[i].req, history[i].reply.outcome.account);
            && !history[i].throttled
            && req.username.Some? && req.username.value in ctx.users && account == ctx.users[req.username.value]
            && (req.key.None? ==> req.secret == Some(account.secret))
            && (req.key.Some? ==>
                  && Pending(history[..i]).Some?
                  && Issued(history[Pending(history[..i]).value].reply).Some?
                  && ctx.md5(Issued(history[Pending(history[..i]).value].reply).value, account.secret)
                     == Lower(req.key.value))
  {
    ShorterHistory(history, i);
    ChallengeIsPending(history[..i]);
  }
}
