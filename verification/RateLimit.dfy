/** The per-source limiter on failed AMI logins (rate_limit.rs), and the bound it puts
    on how many failures one source can get recorded in any span of time. */
module RateLimit {
  import opened Common

  type Ip = string

  datatype Config = Config(maxFailures: nat, window: nat, block: nat, enabled: bool)

  datatype Attempts = Attempts(failures: nat, windowStart: nat, blockedUntil: Option<nat>)

  // ----- One source's entry -----

  /** `check` on an entry: the remaining block, or none and the refreshed entry. */
  function CheckEntry(e: Option<Attempts>, now: nat): (Option<nat>, Option<Attempts>) {
    if e.Some? && e.value.blockedUntil.Some? then
      var until := e.value.blockedUntil.value;
      if now < until then (Some(until - now), e)
      else (None, Some(Attempts(0, now, None)))
    else
      (None, e)
  }

  /** `record_failure` on an entry. */
  function FailEntry(cfg: Config, e: Option<Attempts>, now: nat): Attempts {
    var entry := if e.Some? then e.value else Attempts(0, now, None);
    var slid := if now - entry.windowStart > cfg.window then Attempts(0, now, None) else entry;
    var failures := slid.failures + 1;
    Attempts(failures, slid.windowStart,
             if failures >= cfg.maxFailures then Some(now + cfg.block) else slid.blockedUntil)
  }

  // ----- The shared map -----

  function Entry(byIp: map<Ip, Attempts>, ip: Ip): Option<Attempts> {
    if ip in byIp then Some(byIp[ip]) else None
  }

  function Put(byIp: map<Ip, Attempts>, ip: Ip, e: Option<Attempts>): map<Ip, Attempts> {
    match e
    case None => byIp - {ip}
    case Some(a) => byIp[ip := a]
  }

  class LoginRateLimiter {
    const config: Config
    var byIp: map<Ip, Attempts>

    constructor (config: Config)
      ensures this.config == config && byIp == map[]
    {
      this.config := config;
      byIp := map[];
    }

    /** `Some(retry)` when the source is blocked for another `retry`. */
    method Check(ip: Ip, now: nat) returns (retryAfter: Option<nat>)
      modifies this
      ensures !config.enabled ==> retryAfter == None && byIp == old(byIp)
      ensures config.enabled ==>
                var (retry, e) := CheckEntry(Entry(old(byIp), ip), now);
                retryAfter == retry && byIp == Put(old(byIp), ip, e)
    {
      if !config.enabled {
        return None;
      }
      if ip in byIp {
        var entry := byIp[ip];
        match entry.blockedUntil
        case Some(until) =>
          if now < until {
            assert byIp == byIp[ip := entry];
            return Some(until - now);
          }
          byIp := byIp[ip := Attempts(0, now, None)];
        case None =>
          assert byIp == byIp[ip := entry];
      }
      assert byIp == Put(old(byIp), ip, CheckEntry(Entry(old(byIp), ip), now).1);
      return None;
    }

    method RecordFailure(ip: Ip, now: nat)
      modifies this
      ensures byIp == if config.enabled then Put(old(byIp), ip, Some(FailEntry(config, Entry(old(byIp), ip), now)))
                      else old(byIp)
    {
      if !config.enabled {
        return;
      }
      var entry := if ip in byIp then byIp[ip] else Attempts(0, now, None);
      if now - entry.windowStart > config.window {
        entry := Attempts(0, now, None);
      }
      entry := entry.(failures := entry.failures + 1);
      if entry.failures >= config.maxFailures {
        entry := entry.(blockedUntil := Some(now + config.block));
      }
      byIp := byIp[ip := entry];
    }

    method RecordSuccess(ip: Ip)
      modifies this
      ensures byIp == Put(old(byIp), ip, None)
    {
      byIp := byIp - {ip};
    }
  }

  // ----- Runs of logins -----

  /** How a login that is not throttled ends: a recorded failure (at a time no earlier
      than the check), success, or a reply that records nothing (a missing field). */
  datatype Verdict = Failed(recordedAt: nat) | Succeeded | NotJudged

  datatype Login = Login(ip: Ip, checkedAt: nat, verdict: Verdict)

  predicate Throttled(cfg: Config, e: Option<Attempts>, now: nat) {
    cfg.enabled && CheckEntry(e, now).0.Some?
  }

  /** One login from the entry's own source: check, and record unless throttled. */
  function AfterLogin(cfg: Config, e: Option<Attempts>, login: Login): Option<Attempts> {
    if !cfg.enabled then (if login.verdict.Succeeded? then None else e)
    else if Throttled(cfg, e, login.checkedAt) then e
    else
      var checked := CheckEntry(e, login.checkedAt).1;
      match login.verdict
      case Failed(at) => Some(FailEntry(cfg, checked, at))
      case Succeeded => None
      case NotJudged => checked
  }

  /** The whole map, over logins from any number of sources. */
  function AfterLogins(cfg: Config, logins: seq<Login>): map<Ip, Attempts> {
    if logins == [] then map[]
    else
      var n := |logins| - 1;
      var before := AfterLogins(cfg, logins[..n]);
      Put(before, logins[n].ip, AfterLogin(cfg, Entry(before, logins[n].ip), logins[n]))
  }

  /** When this source's failures were recorded, in order. */
  function Recorded(cfg: Config, logins: seq<Login>, ip: Ip): seq<nat> {
    if logins == [] then []
    else
      var n := |logins| - 1;
      var login := logins[n];
      Recorded(cfg, logins[..n], ip) +
      if login.ip == ip && login.verdict.Failed?
         && !Throttled(cfg, Entry(AfterLogins(cfg, logins[..n]), ip), login.checkedAt)
      then [login.verdict.recordedAt] else []
  }

  function EndOf(login: Login): nat {
    if login.verdict.Failed? && login.verdict.recordedAt > login.checkedAt then login.verdict.recordedAt
    else login.checkedAt
  }

  /** The clock never runs backwards, within a login or from one to the next, and this
      source never logs in successfully. */
  ghost predicate FailingRun(logins: seq<Login>, ip: Ip) {
    && (forall i :: 0 <= i < |logins| && logins[i].verdict.Failed? ==>
          logins[i].checkedAt <= logins[i].verdict.recordedAt)
    && (forall i, j :: 0 <= i < j < |logins| ==> EndOf(logins[i]) <= logins[j].checkedAt)
    && (forall i :: 0 <= i < |logins| && logins[i].ip == ip ==> !logins[i].verdict.Succeeded?)
  }

  function Threshold(cfg: Config): nat {
    if cfg.maxFailures == 0 then 1 else cfg.maxFailures
  }

  function Spacing(cfg: Config): nat {
    if cfg.window < cfg.block then cfg.window else cfg.block
  }

  // ----- Batches: failures counted in the same window -----

  /** Failures fall into batches. `starts` holds when each window began, `batch[i]` the
      window that failure `i` was counted in. */
  datatype Batches = Batches(starts: seq<nat>, batch: seq<nat>)

  ghost predicate Grouped(cfg: Config, fails: seq<nat>, b: Batches) {
    && |b.batch| == |fails|
    && (forall i, j :: 0 <= i < j < |fails| ==> fails[i] <= fails[j] && b.batch[i] <= b.batch[j])
    && (forall i :: 0 <= i < |fails| ==> b.batch[i] < |b.starts| && b.starts[b.batch[i]] <= fails[i])
  }

  /** Windows begin at least the spacing apart, and after every failure counted before. */
  ghost predicate Spaced(cfg: Config, fails: seq<nat>, b: Batches) {
    && Grouped(cfg, fails, b)
    && (forall j, k :: 0 <= j < k < |b.starts| ==> b.starts[j] + Spacing(cfg) <= b.starts[k])
    && (forall i, j :: 0 <= i < |fails| && b.batch[i] < j < |b.starts| ==> fails[i] <= b.starts[j])
  }

  /** A window holds at most the threshold, and a full one is followed by a block. */
  ghost predicate Capped(cfg: Config, fails: seq<nat>, b: Batches) {
    && Grouped(cfg, fails, b)
    && (forall i: nat :: MovesOn(cfg, b, i))
    && (forall i: nat, k: nat :: BlocksNext(cfg, fails, b, i, k))
  }

  ghost predicate MovesOn(cfg: Config, b: Batches, i: nat) {
    i + Threshold(cfg) < |b.batch| ==> b.batch[i] < b.batch[i + Threshold(cfg)]
  }

  ghost predicate BlocksNext(cfg: Config, fails: seq<nat>, b: Batches, i: nat, k: nat) {
    var j := i + Threshold(cfg) - 1;
    j < |b.batch| == |fails| && b.batch[i] == b.batch[j] < k < |b.starts| ==> fails[j] + cfg.block <= b.starts[k]
  }

  /** The entry describes the current batch. */
  ghost predicate Current(cfg: Config, e: Option<Attempts>, fails: seq<nat>, b: Batches, now: nat) {
    match e
    case None => fails == [] && b == Batches([], [])
    case Some(a) =>
      && |b.batch| == |fails|
      && b.starts != [] && a.windowStart == b.starts[|b.starts| - 1] <= now
      && a.failures <= Threshold(cfg) && a.failures <= |fails|
      && (forall i :: 0 <= i < |fails| ==>
            fails[i] <= now && (b.batch[i] == |b.starts| - 1 <==> i >= |fails| - a.failures))
      && (a.blockedUntil.Some? <==> a.failures == Threshold(cfg))
      && (a.blockedUntil.Some? ==> a.blockedUntil.value == fails[|fails| - 1] + cfg.block)
  }

  ghost predicate Explains(cfg: Config, e: Option<Attempts>, fails: seq<nat>, b: Batches, now: nat) {
    Spaced(cfg, fails, b) && Capped(cfg, fails, b) && Current(cfg, e, fails, b, now)
  }

  /** The current window can be left: it has expired, or its block has. */
  ghost predicate Over(cfg: Config, e: Option<Attempts>, now: nat) {
    e.Some? ==>
      if e.value.blockedUntil.Some? then now >= e.value.blockedUntil.value
      else now - e.value.windowStart > cfg.window
  }

  lemma {:induction false} OverIsLate(cfg: Config, a: Attempts, fails: seq<nat>, b: Batches, now: nat)
    requires Grouped(cfg, fails, b) && Current(cfg, Some(a), fails, b, now) && Over(cfg, Some(a), now)
    ensures b.starts[|b.starts| - 1] + Spacing(cfg) <= now
    ensures a.blockedUntil.Some? ==> fails[|fails| - 1] + cfg.block <= now
  {
    if a.blockedUntil.Some? {
      assert b.batch[|fails| - 1] == |b.starts| - 1;
    }
  }

  lemma {:induction false} NewWindowSpaced(cfg: Config, fails: seq<nat>, b: Batches, now: nat)
    requires Spaced(cfg, fails, b)
    requires b.starts != [] ==> b.starts[|b.starts| - 1] + Spacing(cfg) <= now
    requires forall i :: 0 <= i < |fails| ==> fails[i] <= now
    ensures Spaced(cfg, fails, Batches(b.starts + [now], b.batch))
  {
  }

  lemma {:induction false} NewWindowCapped(cfg: Config, e: Option<Attempts>, fails: seq<nat>, b: Batches, now: nat)
    requires Capped(cfg, fails, b) && Current(cfg, e, fails, b, now) && Over(cfg, e, now)
    requires Spaced(cfg, fails, b)
    ensures Capped(cfg, fails, Batches(b.starts + [now], b.batch))
  {
    var c := Batches(b.starts + [now], b.batch);
    assert Grouped(cfg, fails, c);
    forall i: nat
      ensures MovesOn(cfg, c, i)
    {
      assert MovesOn(cfg, b, i);
    }
    forall i: nat, k: nat
      ensures BlocksNext(cfg, fails, c, i, k)
    {
      assert BlocksNext(cfg, fails, b, i, k);
      var j := i + Threshold(cfg) - 1;
      if k == |b.starts| && j < |fails| && b.batch[i] == b.batch[j] {
        FullBatchOver(cfg, e, fails, b, now, i, j);
      }
    }
  }

  lemma {:induction false} FullBatchOver(cfg: Config, e: Option<Attempts>, fails: seq<nat>, b: Batches, now: nat,
                                         i: nat, j: nat)
    requires Capped(cfg, fails, b) && Current(cfg, e, fails, b, now) && Over(cfg, e, now)
    requires Spaced(cfg, fails, b)
    requires j == i + Threshold(cfg) - 1 < |fails| && b.batch[i] == b.batch[j]
    ensures fails[j] + cfg.block <= now
  {
    var last := |b.starts| - 1;
    OverIsLate(cfg, e.value, fails, b, now);
    if b.batch[i] == last {
      assert i >= |fails| - e.value.failures;
      assert j == |fails| - 1;
    } else {
      assert BlocksNext(cfg, fails, b, i, last);
    }
  }

  /** A new window begins. */
  lemma {:induction false} NewWindow(cfg: Config, e: Option<Attempts>, fails: seq<nat>, b: Batches, now: nat)
    requires Explains(cfg, e, fails, b, now) && Over(cfg, e, now)
    ensures Explains(cfg, Some(Attempts(0, now, None)), fails, Batches(b.starts + [now], b.batch), now)
  {
    hide Spaced, Capped, Over;
    assert Grouped(cfg, fails, b) by {
      SpacedIsGrouped(cfg, fails, b);
    }
    NewWindowCapped(cfg, e, fails, b, now);
    if e.Some? {
      OverIsLate(cfg, e.value, fails, b, now);
    }
    NewWindowSpaced(cfg, fails, b, now);
  }

  lemma SpacedIsGrouped(cfg: Config, fails: seq<nat>, b: Batches)
    requires Spaced(cfg, fails, b)
    ensures Grouped(cfg, fails, b)
  {
  }

  lemma {:induction false} SameWindowSpaced(cfg: Config, fails: seq<nat>, b: Batches, at: nat)
    requires Spaced(cfg, fails, b) && b.starts != [] && b.starts[|b.starts| - 1] <= at
    requires forall i :: 0 <= i < |fails| ==> fails[i] <= at
    ensures Spaced(cfg, fails + [at], Batches(b.starts, b.batch + [|b.starts| - 1]))
  {
    var c := Batches(b.starts, b.batch + [|b.starts| - 1]);
    assert Grouped(cfg, fails + [at], c);
  }

  lemma {:induction false} SameWindowCapped(cfg: Config, a: Attempts, fails: seq<nat>, b: Batches, now: nat, at: nat)
    requires Capped(cfg, fails, b) && Current(cfg, Some(a), fails, b, now) && a.blockedUntil.None?
    requires Grouped(cfg, fails + [at], Batches(b.starts, b.batch + [|b.starts| - 1]))
    ensures Capped(cfg, fails + [at], Batches(b.starts, b.batch + [|b.starts| - 1]))
  {
    var last := |b.starts| - 1;
    var f2, c := fails + [at], Batches(b.starts, b.batch + [last]);
    forall i: nat
      ensures MovesOn(cfg, c, i)
    {
      assert MovesOn(cfg, b, i);
      if i + Threshold(cfg) == |fails| {
        assert b.batch[i] != last;
      }
    }
    forall i: nat, k: nat
      ensures BlocksNext(cfg, f2, c, i, k)
    {
      assert BlocksNext(cfg, fails, b, i, k);
    }
  }

  /** One more failure in the current window. */
  lemma {:induction false} SameWindow(cfg: Config, a: Attempts, fails: seq<nat>, b: Batches, now: nat, at: nat)
    requires Explains(cfg, Some(a), fails, b, now) && a.blockedUntil.None? && now <= at
    ensures var failures := a.failures + 1;
            var blocked := if failures >= cfg.maxFailures then Some(at + cfg.block) else None;
            Explains(cfg, Some(Attempts(failures, a.windowStart, blocked)),
                     fails + [at], Batches(b.starts, b.batch + [|b.starts| - 1]), at)
  {
    hide Spaced, Capped;
    SameWindowSpaced(cfg, fails, b, at);
    SpacedIsGrouped(cfg, fails + [at], Batches(b.starts, b.batch + [|b.starts| - 1]));
    SameWindowCapped(cfg, a, fails, b, now, at);
  }

  // ----- When windows begin, and what they hold -----

  /** Window `k` was opened after the block that the full window before it earned. */
  ghost predicate AfterBlock(cfg: Config, fails: seq<nat>, b: Batches, k: nat) {
    exists i: nat :: FullBatchBefore(cfg, fails, b, k, i)
  }

  ghost predicate FullBatchBefore(cfg: Config, fails: seq<nat>, b: Batches, k: nat, i: nat) {
    var j := i + Threshold(cfg) - 1;
    && 0 < k < |b.starts| && j < |fails| == |b.batch|
    && b.batch[i] == b.batch[j] == k - 1 && fails[j] + cfg.block <= b.starts[k]
  }

  /** Failure `i` is the first of its window. */
  predicate OpensBatch(b: Batches, i: nat) {
    i < |b.batch| && (i == 0 || b.batch[i - 1] < b.batch[i])
  }

  /** A window begins after a block; or with its first failure, when the window before it is
      over. */
  ghost predicate OpensWell(cfg: Config, fails: seq<nat>, b: Batches, k: nat) {
    k < |b.starts| && |b.batch| == |fails| ==>
      || AfterBlock(cfg, fails, b, k)
      || ((k > 0 ==> b.starts[k - 1] + cfg.window < b.starts[k])
          && forall i: nat :: OpensBatch(b, i) && b.batch[i] == k ==> fails[i] == b.starts[k])
  }

  ghost predicate InWindow(cfg: Config, fails: seq<nat>, b: Batches, i: nat) {
    i < |fails| == |b.batch| ==>
      b.batch[i] < |b.starts| && b.starts[b.batch[i]] <= fails[i] <= b.starts[b.batch[i]] + cfg.window
  }

  /** The law of windows: every failure lies in its window, and windows begin as they should. */
  ghost predicate Lawful(cfg: Config, fails: seq<nat>, b: Batches) {
    && |b.batch| == |fails|
    && (forall i: nat :: InWindow(cfg, fails, b, i))
    && (forall k: nat :: OpensWell(cfg, fails, b, k))
  }

  /** A window without failures was opened after a block. */
  ghost predicate Rested(cfg: Config, e: Option<Attempts>, fails: seq<nat>, b: Batches) {
    e.Some? && e.value.failures == 0 ==> b.starts != [] && AfterBlock(cfg, fails, b, |b.starts| - 1)
  }

  lemma {:induction false} AfterBlockStays(cfg: Config, fails: seq<nat>, b: Batches, more: seq<nat>, c: Batches, k: nat)
    requires AfterBlock(cfg, fails, b, k) && |b.batch| == |fails| && |c.batch| == |fails + more|
    requires b.starts <= c.starts && b.batch <= c.batch
    ensures AfterBlock(cfg, fails + more, c, k)
  {
    var i: nat :| FullBatchBefore(cfg, fails, b, k, i);
    assert FullBatchBefore(cfg, fails + more, c, k, i);
  }

  lemma {:induction false} BlockWasEarned(cfg: Config, a: Attempts, fails: seq<nat>, b: Batches, now: nat)
    requires Current(cfg, Some(a), fails, b, now) && a.blockedUntil.Some? && a.blockedUntil.value <= now
    ensures AfterBlock(cfg, fails, Batches(b.starts + [now], b.batch), |b.starts|)
  {
    var i := |fails| - Threshold(cfg);
    assert b.batch[i] == |b.starts| - 1 && b.batch[|fails| - 1] == |b.starts| - 1;
    assert FullBatchBefore(cfg, fails, Batches(b.starts + [now], b.batch), |b.starts|, i);
  }

  lemma {:induction false} OldWindowOpensWell(cfg: Config, fails: seq<nat>, b: Batches, now: nat, k: nat)
    requires OpensWell(cfg, fails, b, k) && k < |b.starts| && |b.batch| == |fails|
    ensures OpensWell(cfg, fails, Batches(b.starts + [now], b.batch), k)
  {
    var c := Batches(b.starts + [now], b.batch);
    if AfterBlock(cfg, fails, b, k) {
      assert fails + [] == fails;
      AfterBlockStays(cfg, fails, b, [], c, k);
    } else {
      assert forall i: nat :: OpensBatch(c, i) <==> OpensBatch(b, i);
    }
  }

  lemma {:induction false} NewWindowLawful(cfg: Config, e: Option<Attempts>, fails: seq<nat>, b: Batches, now: nat)
    requires Lawful(cfg, fails, b) && Grouped(cfg, fails, b) && Current(cfg, e, fails, b, now) && Over(cfg, e, now)
    ensures Lawful(cfg, fails, Batches(b.starts + [now], b.batch))
  {
    var c := Batches(b.starts + [now], b.batch);
    forall i: nat
      ensures InWindow(cfg, fails, c, i)
    {
      assert InWindow(cfg, fails, b, i);
    }
    if e.Some? && e.value.blockedUntil.Some? {
      BlockWasEarned(cfg, e.value, fails, b, now);
    }
    hide AfterBlock;
    forall k: nat
      ensures OpensWell(cfg, fails, c, k)
    {
      if k < |b.starts| {
        assert OpensWell(cfg, fails, b, k);
        OldWindowOpensWell(cfg, fails, b, now, k);
      }
    }
  }

  lemma {:induction false} SameWindowLawful(cfg: Config, a: Attempts, fails: seq<nat>, b: Batches, now: nat, at: nat)
    requires Lawful(cfg, fails, b) && Grouped(cfg, fails, b) && Current(cfg, Some(a), fails, b, now)
    requires now <= at <= a.windowStart + cfg.window
    requires a.failures > 0 || at == a.windowStart || AfterBlock(cfg, fails, b, |b.starts| - 1)
    ensures Lawful(cfg, fails + [at], Batches(b.starts, b.batch + [|b.starts| - 1]))
  {
    var last := |b.starts| - 1;
    var f2, c := fails + [at], Batches(b.starts, b.batch + [last]);
    forall i: nat
      ensures InWindow(cfg, f2, c, i)
    {
      assert InWindow(cfg, fails, b, i);
    }
    forall k: nat
      ensures OpensWell(cfg, f2, c, k)
    {
      assert OpensWell(cfg, fails, b, k);
      if k <= last {
        if AfterBlock(cfg, fails, b, k) {
          AfterBlockStays(cfg, fails, b, [at], c, k);
        } else {
          FirstsStay(cfg, a, fails, b, now, at, k);
        }
      }
    }
  }

  lemma {:induction false} FirstsStay(cfg: Config, a: Attempts, fails: seq<nat>, b: Batches, now: nat, at: nat, k: nat)
    requires Grouped(cfg, fails, b) && Current(cfg, Some(a), fails, b, now) && k < |b.starts|
    requires forall i: nat :: OpensBatch(b, i) && b.batch[i] == k ==> fails[i] == b.starts[k]
    requires k == |b.starts| - 1 ==> a.failures > 0 || at == a.windowStart
    ensures var c := Batches(b.starts, b.batch + [|b.starts| - 1]);
            forall i: nat :: OpensBatch(c, i) && c.batch[i] == k ==> (fails + [at])[i] == b.starts[k]
  {
    var c := Batches(b.starts, b.batch + [|b.starts| - 1]);
    assert a.failures > 0 ==> b.batch[|fails| - 1] == |b.starts| - 1;
    forall i: nat | OpensBatch(c, i) && c.batch[i] == k
      ensures (fails + [at])[i] == b.starts[k]
    {
      assert i < |fails| ==> OpensBatch(b, i);
    }
  }

  /** Every run of logins without success is explained by some batches, which keep the law. */
  lemma {:induction false} RunIsBatched(cfg: Config, logins: seq<Login>, ip: Ip) returns (b: Batches)
    requires cfg.enabled && FailingRun(logins, ip)
    ensures Explains(cfg, Entry(AfterLogins(cfg, logins), ip), Recorded(cfg, logins, ip), b,
                     if logins == [] then 0 else EndOf(logins[|logins| - 1]))
    ensures Lawful(cfg, Recorded(cfg, logins, ip), b)
    ensures Rested(cfg, Entry(AfterLogins(cfg, logins), ip), Recorded(cfg, logins, ip), b)
  {
    if logins == [] {
      b := Batches([], []);
    } else {
      hide Explains, AfterLogin, FailingRun, AfterLogins, Recorded, Throttled, Lawful, Rested;
      var n := |logins| - 1;
      var login, before := logins[n], logins[..n];
      FailingPrefix(logins, ip);
      OneMoreLogin(cfg, logins, ip);
      b := RunIsBatched(cfg, before, ip);
      var e, fails := Entry(AfterLogins(cfg, before), ip), Recorded(cfg, before, ip);
      Later(cfg, e, fails, b, if before == [] then 0 else EndOf(before[n - 1]), login.checkedAt);
      if login.ip != ip {
        Later(cfg, e, fails, b, login.checkedAt, EndOf(login));
        assert Recorded(cfg, logins, ip) == fails;
      } else {
        b := LoginIsBatched(cfg, login, e, fails, b);
      }
    }
  }

  lemma {:induction false} OneMoreLogin(cfg: Config, logins: seq<Login>, ip: Ip)
    requires logins != []
    ensures var n := |logins| - 1;
            var login, before := logins[n], logins[..n];
            var e := Entry(AfterLogins(cfg, before), ip);
            && Entry(AfterLogins(cfg, logins), ip) == (if login.ip == ip then AfterLogin(cfg, e, login) else e)
            && Recorded(cfg, logins, ip) == Recorded(cfg, before, ip) +
                 if login.ip == ip && login.verdict.Failed? && !Throttled(cfg, e, login.checkedAt)
                 then [login.verdict.recordedAt] else []
  {
    hide AfterLogin, Throttled;
  }

  lemma FailingPrefix(logins: seq<Login>, ip: Ip)
    requires FailingRun(logins, ip) && logins != []
    ensures var n := |logins| - 1;
            && FailingRun(logins[..n], ip)
            && (n > 0 ==> EndOf(logins[..n][n - 1]) <= logins[n].checkedAt)
            && (logins[n].verdict.Failed? ==> logins[n].checkedAt <= logins[n].verdict.recordedAt)
            && (logins[n].ip == ip ==> !logins[n].verdict.Succeeded?)
  {
  }

  lemma Later(cfg: Config, e: Option<Attempts>, fails: seq<nat>, b: Batches, now: nat, later: nat)
    requires Explains(cfg, e, fails, b, now) && now <= later
    ensures Explains(cfg, e, fails, b, later)
  {
  }

  lemma {:induction false} LoginIsBatched(cfg: Config, login: Login, e: Option<Attempts>, fails: seq<nat>, b: Batches)
      returns (c: Batches)
    requires cfg.enabled && !login.verdict.Succeeded?
    requires login.verdict.Failed? ==> login.checkedAt <= login.verdict.recordedAt
    requires Explains(cfg, e, fails, b, login.checkedAt) && Lawful(cfg, fails, b) && Rested(cfg, e, fails, b)
    ensures var after := fails + (if login.verdict.Failed? && !Throttled(cfg, e, login.checkedAt)
                                  then [login.verdict.recordedAt] else []);
            && Explains(cfg, AfterLogin(cfg, e, login), after, c, EndOf(login))
            && Lawful(cfg, after, c) && Rested(cfg, AfterLogin(cfg, e, login), after, c)
  {
    hide Explains, Lawful, Rested;
    var now := login.checkedAt;
    c := b;
    if Throttled(cfg, e, now) {
      Later(cfg, e, fails, c, now, EndOf(login));
      assert fails + [] == fails;
    } else {
      var checked := CheckEntry(e, now).1;
      if checked != e {
        BlockElapses(cfg, e, fails, b, now);
        c := Batches(b.starts + [now], b.batch);
      }
      match login.verdict
      case NotJudged =>
        assert fails + [] == fails;
      case Failed(at) =>
        Later(cfg, checked, fails, c, now, at);
        c := FailureIsBatched(cfg, checked, fails, c, at);
    }
  }

  /** A check after the block opens a new window. */
  lemma {:induction false} BlockElapses(cfg: Config, e: Option<Attempts>, fails: seq<nat>, b: Batches, now: nat)
    requires Explains(cfg, e, fails, b, now) && Lawful(cfg, fails, b)
    requires e.Some? && e.value.blockedUntil.Some? && e.value.blockedUntil.value <= now
    ensures var c, fresh' := Batches(b.starts + [now], b.batch), Some(Attempts(0, now, None));
            Explains(cfg, fresh', fails, c, now) && Lawful(cfg, fails, c) && Rested(cfg, fresh', fails, c)
  {
    SpacedIsGrouped(cfg, fails, b);
    NewWindow(cfg, e, fails, b, now);
    NewWindowLawful(cfg, e, fails, b, now);
    BlockWasEarned(cfg, e.value, fails, b, now);
    hide Explains, Lawful, AfterBlock;
  }

  /** A failure outside any window opens one. */
  lemma {:induction false} FailureOpens(cfg: Config, e: Option<Attempts>, fails: seq<nat>, b: Batches, at: nat)
    requires Explains(cfg, e, fails, b, at) && Lawful(cfg, fails, b) && Over(cfg, e, at)
    ensures var c := Batches(b.starts + [at], b.batch);
            Explains(cfg, Some(Attempts(0, at, None)), fails, c, at) && Lawful(cfg, fails, c)
  {
    hide Lawful, Capped;
    SpacedIsGrouped(cfg, fails, b);
    NewWindow(cfg, e, fails, b, at);
    NewWindowLawful(cfg, e, fails, b, at);
  }

  /** A failure inside a window is counted there. */
  lemma {:induction false} FailureCounts(cfg: Config, a: Attempts, fails: seq<nat>, b: Batches, at: nat)
    requires Explains(cfg, Some(a), fails, b, at) && Lawful(cfg, fails, b)
    requires a.blockedUntil.None? && at <= a.windowStart + cfg.window
    requires a.failures > 0 || at == a.windowStart || AfterBlock(cfg, fails, b, |b.starts| - 1)
    ensures var failures := a.failures + 1;
            var blocked := if failures >= cfg.maxFailures then Some(at + cfg.block) else None;
            var c := Batches(b.starts, b.batch + [|b.starts| - 1]);
            Explains(cfg, Some(Attempts(failures, a.windowStart, blocked)), fails + [at], c, at)
            && Lawful(cfg, fails + [at], c)
    ensures b.starts != []
  {
    hide Lawful, Capped, AfterBlock;
    SpacedIsGrouped(cfg, fails, b);
    SameWindow(cfg, a, fails, b, at, at);
    SameWindowLawful(cfg, a, fails, b, at, at);
  }

  lemma {:induction false} FailureIsBatched(cfg: Config, e: Option<Attempts>, fails: seq<nat>, b: Batches, at: nat)
      returns (c: Batches)
    requires Explains(cfg, e, fails, b, at) && Lawful(cfg, fails, b) && Rested(cfg, e, fails, b)
    requires e.Some? ==> e.value.blockedUntil.None?
    ensures Explains(cfg, Some(FailEntry(cfg, e, at)), fails + [at], c, at)
    ensures Lawful(cfg, fails + [at], c) && Rested(cfg, Some(FailEntry(cfg, e, at)), fails + [at], c)
  {
    hide Explains, Lawful, AfterBlock;
    var entry := if e.Some? then e.value else Attempts(0, at, None);
    c := b;
    if e.None? || at - entry.windowStart > cfg.window {
      FailureOpens(cfg, e, fails, b, at);
      c := Batches(b.starts + [at], b.batch);
      entry := Attempts(0, at, None);
    }
    FailureCounts(cfg, entry, fails, c, at);
    c := Batches(c.starts, c.batch + [|c.starts| - 1]);
  }

  // ----- Who is throttled -----

  /** The last failures, as many as the threshold, were counted in one window. */
  ghost predicate WindowIsFull(cfg: Config, fails: seq<nat>, b: Batches) {
    && Threshold(cfg) <= |fails| == |b.batch|
    && b.batch[|fails| - Threshold(cfg)] == b.batch[|fails| - 1]
    && (b.starts != [] ==> b.batch[|fails| - 1] == |b.starts| - 1)
  }

  /** Exactly who is throttled, and for how long. In every run of failing logins the recorded
      failures fall into windows that keep the law; the source is throttled at a later moment
      if and only if its last failures fill the current window and the block since the last
      of them is not over, and is then told what is left of that block. */
  lemma {:induction false} ThrottledExactly(cfg: Config, logins: seq<Login>, ip: Ip, now: nat) returns (b: Batches)
    requires cfg.enabled && FailingRun(logins, ip)
    requires logins != [] ==> EndOf(logins[|logins| - 1]) <= now
    ensures Lawful(cfg, Recorded(cfg, logins, ip), b)
    ensures var fails := Recorded(cfg, logins, ip);
            CheckEntry(Entry(AfterLogins(cfg, logins), ip), now).0 ==
            if WindowIsFull(cfg, fails, b) && now < fails[|fails| - 1] + cfg.block
            then Some(fails[|fails| - 1] + cfg.block - now) else None
  {
    b := RunIsBatched(cfg, logins, ip);
    var e, fails := Entry(AfterLogins(cfg, logins), ip), Recorded(cfg, logins, ip);
    FullExactly(cfg, e, fails, b, if logins == [] then 0 else EndOf(logins[|logins| - 1]));
    hide AfterLogins, Recorded, Lawful, Explains, Rested;
  }

  lemma {:induction false} FullExactly(cfg: Config, e: Option<Attempts>, fails: seq<nat>, b: Batches, now: nat)
    requires Explains(cfg, e, fails, b, now)
    ensures e.Some? && e.value.blockedUntil.Some? <==> WindowIsFull(cfg, fails, b)
    ensures e.Some? && e.value.blockedUntil.Some? ==> e.value.blockedUntil.value == fails[|fails| - 1] + cfg.block
  {
    hide Spaced, Capped;
    if e.Some? && fails != [] && Threshold(cfg) <= |fails| {
      var first := |fails| - Threshold(cfg);
      assert b.batch[first] == |b.starts| - 1 <==> first >= |fails| - e.value.failures;
      assert b.batch[|fails| - 1] == |b.starts| - 1 <==> e.value.failures > 0;
    }
  }

  /** In terms of the failures alone: a source is throttled only if its last failures, as many
      as the threshold, are no further apart than the window. */
  lemma {:induction false} OldFailuresDoNotBlock(cfg: Config, logins: seq<Login>, ip: Ip, now: nat)
    requires cfg.enabled && FailingRun(logins, ip)
    requires logins != [] ==> EndOf(logins[|logins| - 1]) <= now
    requires Throttled(cfg, Entry(AfterLogins(cfg, logins), ip), now)
    ensures var fails, m := Recorded(cfg, logins, ip), Threshold(cfg);
            && m <= |fails| && fails[|fails| - 1] - fails[|fails| - m] <= cfg.window
            && now < fails[|fails| - 1] + cfg.block
  {
    var b := ThrottledExactly(cfg, logins, ip, now);
    var fails := Recorded(cfg, logins, ip);
    hide AfterLogins, Recorded;
    assert InWindow(cfg, fails, b, |fails| - Threshold(cfg)) && InWindow(cfg, fails, b, |fails| - 1);
  }

  /** And the other way: the first failures of a source, as many as the threshold and no further
      from the first than the window, do throttle it, until the block after the last is over. */
  lemma {:induction false} FirstFailuresBlock(cfg: Config, logins: seq<Login>, ip: Ip, now: nat)
    requires cfg.enabled && FailingRun(logins, ip)
    requires logins != [] ==> EndOf(logins[|logins| - 1]) <= now
    requires var fails := Recorded(cfg, logins, ip);
             |fails| == Threshold(cfg) && fails[|fails| - 1] <= fails[0] + cfg.window
             && now < fails[|fails| - 1] + cfg.block
    ensures Throttled(cfg, Entry(AfterLogins(cfg, logins), ip), now)
  {
    var e, fails := Entry(AfterLogins(cfg, logins), ip), Recorded(cfg, logins, ip);
    var b := RunIsBatched(cfg, logins, ip);
    var last := if logins == [] then 0 else EndOf(logins[|logins| - 1]);
    OneWindowOnly(cfg, e, fails, b, last, now);
    FullExactly(cfg, e, fails, b, last);
    hide AfterLogins, Recorded, Explains, Lawful;
  }

  /** With no more failures than the threshold, no window with a failure follows a full one. */
  lemma {:induction false} NoBlockYet(cfg: Config, fails: seq<nat>, b: Batches, k: nat, i: nat)
    requires |fails| == Threshold(cfg) && |b.batch| == |fails| && i < |fails| && b.batch[i] >= k
    requires forall x, y :: 0 <= x < y < |fails| ==> b.batch[x] <= b.batch[y]
    ensures !AfterBlock(cfg, fails, b, k)
  {
    assert i == |fails| - 1 || b.batch[i] <= b.batch[|fails| - 1];
  }

  lemma OpensByFailure(cfg: Config, fails: seq<nat>, b: Batches, i: nat)
    requires |b.batch| == |fails| && OpensBatch(b, i) && b.batch[i] < |b.starts|
    requires OpensWell(cfg, fails, b, b.batch[i]) && !AfterBlock(cfg, fails, b, b.batch[i])
    ensures fails[i] == b.starts[b.batch[i]]
    ensures b.batch[i] > 0 ==> b.starts[b.batch[i] - 1] + cfg.window < b.starts[b.batch[i]]
  {
    hide AfterBlock;
  }

  lemma {:induction false} FirstComesBefore(cfg: Config, fails: seq<nat>, b: Batches, k: nat)
    requires Spaced(cfg, fails, b) && Lawful(cfg, fails, b) && |fails| == Threshold(cfg)
    requires b.batch[0] <= k < |b.starts|
    ensures fails[0] <= b.starts[k]
  {
    if b.batch[0] == k {
      NoBlockYet(cfg, fails, b, k, 0);
      assert OpensWell(cfg, fails, b, k);
      OpensByFailure(cfg, fails, b, 0);
    }
  }

  /** The first failure of the next window is later than the window of the very first. */
  lemma {:induction false} NextBatchIsLate(cfg: Config, fails: seq<nat>, b: Batches, i: nat)
    requires Spaced(cfg, fails, b) && Lawful(cfg, fails, b) && |fails| == Threshold(cfg)
    requires 0 < i < |fails| && b.batch[i - 1] < b.batch[i]
    ensures fails[0] + cfg.window < fails[i]
  {
    var k := b.batch[i];
    SpacedIsGrouped(cfg, fails, b);
    assert i - 1 == 0 || b.batch[0] <= b.batch[i - 1];
    NoBlockYet(cfg, fails, b, k, i);
    assert OpensWell(cfg, fails, b, k);
    hide AfterBlock, Lawful, Spaced, OpensWell;
    OpensByFailure(cfg, fails, b, i);
    FirstComesBefore(cfg, fails, b, k - 1);
  }

  lemma {:induction false} SameBatch(cfg: Config, fails: seq<nat>, b: Batches, i: nat)
    requires Spaced(cfg, fails, b) && Lawful(cfg, fails, b)
    requires |fails| == Threshold(cfg) && fails[|fails| - 1] <= fails[0] + cfg.window && i < |fails|
    ensures b.batch[i] == b.batch[0]
  {
    if i > 0 {
      SameBatch(cfg, fails, b, i - 1);
      assert i == |fails| - 1 || fails[i] <= fails[|fails| - 1];
      assert b.batch[i - 1] <= b.batch[i];
      hide Lawful;
      if b.batch[i - 1] < b.batch[i] {
        NextBatchIsLate(cfg, fails, b, i);
      }
    }
  }

  lemma {:induction false} OneWindowOnly(cfg: Config, e: Option<Attempts>, fails: seq<nat>, b: Batches, last: nat,
                                         now: nat)
    requires Explains(cfg, e, fails, b, last) && Lawful(cfg, fails, b) && Rested(cfg, e, fails, b) && last <= now
    requires |fails| == Threshold(cfg) && fails[|fails| - 1] <= fails[0] + cfg.window
    requires now < fails[|fails| - 1] + cfg.block
    ensures WindowIsFull(cfg, fails, b)
  {
    SameBatch(cfg, fails, b, |fails| - 1);
    hide Spaced, Capped, Lawful, AfterBlock;
    if e.value.failures == 0 {
      BlockIsPast(cfg, fails, b, |b.starts| - 1);
    }
  }

  lemma {:induction false} BlockIsPast(cfg: Config, fails: seq<nat>, b: Batches, k: nat)
    requires |fails| == Threshold(cfg) && AfterBlock(cfg, fails, b, k)
    ensures k < |b.starts| && fails[|fails| - 1] + cfg.block <= b.starts[k]
  {
    var i: nat :| FullBatchBefore(cfg, fails, b, k, i);
  }

  // ----- The bounds -----

  lemma {:induction false} BatchesAdvance(cfg: Config, fails: seq<nat>, b: Batches, i: nat, k: nat)
    requires Capped(cfg, fails, b) && i + Threshold(cfg) * k < |fails|
    ensures b.batch[i] + k <= b.batch[i + Threshold(cfg) * k]
  {
    if k > 0 {
      var m := Threshold(cfg);
      assert m * k == m * (k - 1) + m;
      BatchesAdvance(cfg, fails, b, i, k - 1);
      assert MovesOn(cfg, b, i + m * (k - 1));
    }
  }

  lemma {:induction false} StartsAdvance(cfg: Config, fails: seq<nat>, b: Batches, j: nat, k: nat)
    requires Spaced(cfg, fails, b) && j + k < |b.starts|
    ensures b.starts[j] + Spacing(cfg) * k <= b.starts[j + k]
  {
    if k > 0 {
      assert Spacing(cfg) * k == Spacing(cfg) * (k - 1) + Spacing(cfg);
      StartsAdvance(cfg, fails, b, j, k - 1);
    }
  }

  /** Threshold times (k + 2) failures later, more than k + 1 spacings have passed. */
  lemma {:induction false} FarApart(cfg: Config, fails: seq<nat>, b: Batches, i: nat, k: nat)
    requires Spaced(cfg, fails, b) && Capped(cfg, fails, b)
    requires i + Threshold(cfg) * (k + 2) < |fails|
    ensures fails[i] + Spacing(cfg) * (k + 1) <= fails[i + Threshold(cfg) * (k + 2)]
  {
    var far := i + Threshold(cfg) * (k + 2);
    BatchesAdvance(cfg, fails, b, i, k + 2);
    StartsAdvance(cfg, fails, b, b.batch[i] + 1, b.batch[far] - b.batch[i] - 1);
    MulMonotone(Spacing(cfg), k + 1, b.batch[far] - b.batch[i] - 1);
  }

  lemma MulMonotone(d: nat, x: nat, y: nat)
    requires x <= y
    ensures d * x <= d * y
  {
  }

  /** Two thresholds of failures never fit in less than the spacing. */
  lemma {:induction false} TwoThresholdsApart(cfg: Config, fails: seq<nat>, b: Batches, i: nat)
    requires Spaced(cfg, fails, b) && Capped(cfg, fails, b)
    requires i + 2 * Threshold(cfg) - 1 < |fails|
    ensures fails[i] + Spacing(cfg) <= fails[i + 2 * Threshold(cfg) - 1]
  {
    var m := Threshold(cfg);
    var j, far := i + m - 1, i + 2 * m - 1;
    assert MovesOn(cfg, b, i) && MovesOn(cfg, b, j);
    assert j > i ==> b.batch[i] <= b.batch[j] && fails[i] <= fails[j];
    if b.batch[i] == b.batch[j] {
      assert BlocksNext(cfg, fails, b, i, b.batch[far]);
    } else {
      assert fails[i] <= b.starts[b.batch[j]];
    }
  }

  /** How many of these moments fall in `[from, from + length]`. */
  ghost function Within(fails: seq<nat>, from: nat, length: nat): nat {
    |set i | 0 <= i < |fails| && from <= fails[i] <= from + length|
  }

  ghost function Range(lo: nat, k: nat): (r: set<int>)
    ensures |r| == k && forall i :: i in r <==> lo <= i < lo + k
  {
    if k == 0 then {} else Range(lo, k - 1) + {lo + k - 1}
  }

  lemma SubsetSize(a: set<int>, b: set<int>)
    requires a <= b
    ensures |a| <= |b|
  {
    assert b == a + (b - a);
  }

  ghost predicate Ascending(fails: seq<nat>) {
    forall i, j :: 0 <= i < j < |fails| ==> fails[i] <= fails[j]
  }

  /** Failures `k` apart in the sequence are more than `length` apart in time. */
  ghost predicate Apart(fails: seq<nat>, length: nat, k: nat) {
    forall i: nat, j: nat :: j == i + k < |fails| ==> fails[i] + length < fails[j]
  }

  /** If any `k` later failures are more than `length` away, at most `k` are within it. */
  lemma {:induction false} WithinBound(fails: seq<nat>, from: nat, length: nat, k: nat, lo: nat)
    requires Ascending(fails) && Apart(fails, length, k)
    requires lo <= |fails| && forall i :: 0 <= i < lo ==> fails[i] < from
    ensures Within(fails, from, length) <= k
    decreases |fails| - lo
  {
    var inside := set i | 0 <= i < |fails| && from <= fails[i] <= from + length;
    if lo < |fails| && fails[lo] < from {
      WithinBound(fails, from, length, k, lo + 1);
    } else {
      assert lo + k < |fails| ==> fails[lo] + length < fails[lo + k];
      assert inside <= Range(lo, k);
      SubsetSize(inside, Range(lo, k));
    }
  }

  /** The limiter's bound. Whatever other sources do, and whenever this one tries: any
      span of length `length` holds at most threshold * (2 + length / spacing) of its
      recorded failures, and any span shorter than the spacing fewer than two thresholds. */
  lemma {:induction false} FailuresBounded(cfg: Config, logins: seq<Login>, ip: Ip, from: nat, length: nat)
    requires cfg.enabled && Spacing(cfg) > 0 && FailingRun(logins, ip)
    ensures Within(Recorded(cfg, logins, ip), from, length) <= Threshold(cfg) * (2 + length / Spacing(cfg))
    ensures length < Spacing(cfg) ==> Within(Recorded(cfg, logins, ip), from, length) <= 2 * Threshold(cfg) - 1
  {
    hide AfterLogins, Recorded, Within, Spaced, Capped, Current, Threshold, Spacing;
    var b := RunIsBatched(cfg, logins, ip);
    var fails := Recorded(cfg, logins, ip);
    LongSpan(cfg, fails, b, from, length);
    if length < Spacing(cfg) {
      ShortSpan(cfg, fails, b, from, length);
    }
  }

  lemma FailuresInOrder(cfg: Config, fails: seq<nat>, b: Batches)
    requires Spaced(cfg, fails, b)
    ensures Ascending(fails)
  {
  }

  lemma {:induction false} LongSpan(cfg: Config, fails: seq<nat>, b: Batches, from: nat, length: nat)
    requires Spaced(cfg, fails, b) && Capped(cfg, fails, b) && Spacing(cfg) > 0
    ensures Within(fails, from, length) <= Threshold(cfg) * (2 + length / Spacing(cfg))
  {
    hide Spaced, Capped, Within, Threshold, Spacing, Apart, Ascending;
    FailuresInOrder(cfg, fails, b);
    var k := Threshold(cfg) * (2 + length / Spacing(cfg));
    AllLongerApart(cfg, fails, b, length, k);
    WithinBound(fails, from, length, k, 0);
  }

  lemma {:induction false} AllLongerApart(cfg: Config, fails: seq<nat>, b: Batches, length: nat, k: nat)
    requires Spaced(cfg, fails, b) && Capped(cfg, fails, b) && Spacing(cfg) > 0
    requires k == Threshold(cfg) * (2 + length / Spacing(cfg))
    ensures Apart(fails, length, k)
  {
    hide Spaced, Capped, Threshold, Spacing;
    forall i: nat, j: nat | j == i + k < |fails|
      ensures fails[i] + length < fails[j]
    {
      LongerApart(cfg, fails, b, length, i);
    }
  }

  lemma {:induction false} LongerApart(cfg: Config, fails: seq<nat>, b: Batches, length: nat, i: nat)
    requires Spaced(cfg, fails, b) && Capped(cfg, fails, b) && Spacing(cfg) > 0
    requires i + Threshold(cfg) * (2 + length / Spacing(cfg)) < |fails|
    ensures fails[i] + length < fails[i + Threshold(cfg) * (2 + length / Spacing(cfg))]
  {
    hide Spaced, Capped, Threshold, Spacing;
    FarApart(cfg, fails, b, i, length / Spacing(cfg));
    QuotientBound(length, Spacing(cfg));
  }

  lemma {:induction false} ShortSpan(cfg: Config, fails: seq<nat>, b: Batches, from: nat, length: nat)
    requires Spaced(cfg, fails, b) && Capped(cfg, fails, b) && length < Spacing(cfg)
    ensures Within(fails, from, length) <= 2 * Threshold(cfg) - 1
  {
    var k := 2 * Threshold(cfg) - 1;
    forall i: nat, j: nat | j == i + k < |fails|
      ensures fails[i] + length < fails[j]
    {
      TwoThresholdsApart(cfg, fails, b, i);
    }
    WithinBound(fails, from, length, k, 0);
  }

  lemma QuotientBound(x: nat, d: nat)
    requires d > 0
    ensures x < d * (x / d + 1)
  {
  }

  /** A successful login forgets everything about its source. */
  lemma {:induction false} SuccessForgets(cfg: Config, logins: seq<Login>, ip: Ip)
    requires logins != [] && logins[|logins| - 1].ip == ip && logins[|logins| - 1].verdict.Succeeded?
    requires !Throttled(cfg, Entry(AfterLogins(cfg, logins[..|logins| - 1]), ip), logins[|logins| - 1].checkedAt)
    ensures Entry(AfterLogins(cfg, logins), ip) == None
  {
    OneMoreLogin(cfg, logins, ip);
    hide AfterLogins;
  }

  /** And what comes after is judged as if nothing had been before. */
  lemma {:induction false} FreshStart(cfg: Config, logins: seq<Login>, more: seq<Login>, ip: Ip)
    requires Entry(AfterLogins(cfg, logins), ip) == None
    ensures Entry(AfterLogins(cfg, logins + more), ip) == Entry(AfterLogins(cfg, more), ip)
  {
    if more == [] {
      assert logins + more == logins;
    } else {
      var n := |more| - 1;
      FreshStart(cfg, logins, more[..n], ip);
      OneMoreLogin(cfg, more, ip);
      OneMoreLogin(cfg, logins + more, ip);
      hide AfterLogins, AfterLogin;
      assert (logins + more)[..|logins + more| - 1] == logins + more[..n];
    }
  }

  /** While a source is blocked its logins are throttled: no credentials are evaluated,
      nothing is recorded and the block does not move, whatever anyone sends. */
  lemma {:induction false} BlockedStaysBlocked(cfg: Config, logins: seq<Login>, more: seq<Login>, ip: Ip)
    requires cfg.enabled
    requires var e := Entry(AfterLogins(cfg, logins), ip);
             && e.Some? && e.value.blockedUntil.Some?
             && forall i :: 0 <= i < |more| && more[i].ip == ip ==> more[i].checkedAt < e.value.blockedUntil.value
    ensures Entry(AfterLogins(cfg, logins + more), ip) == Entry(AfterLogins(cfg, logins), ip)
    ensures Recorded(cfg, logins + more, ip) == Recorded(cfg, logins, ip)
    decreases |more|
  {
    if more == [] {
      assert logins + more == logins;
    } else {
      var n := |more| - 1;
      BlockedStaysBlocked(cfg, logins, more[..n], ip);
      assert (logins + more)[..|logins + more| - 1] == logins + more[..n];
      assert (logins + more)[|logins + more| - 1] == more[n];
    }
  }
}
