/** Admission of AMI connections (server.rs, `handle_connection`): many connection tasks
    share one atomic count of unauthenticated sessions, reserved by `fetch_add` with
    rollback and released on authentication or teardown. */
module Admission {

  /** `AtomicUsize` wraps at the word size. */
  const WORD: nat := 0x1_0000_0000_0000_0000

  function FetchAdd(c: nat): nat { (c + 1) % WORD }
  function FetchSub(c: nat): nat { (c + WORD - 1) % WORD }

  /** Where a connection task stands. `held` is the task's `slot_held` flag. */
  datatype Phase =
    | Accepted
    | Reserved(prior: nat)
    | Greeting
    | LoopHead(held: bool)
    | Reading(held: bool)
    | Teardown(held: bool)
    | Finished

  /** A task with its session's state: `authenticated` now, `everAuthenticated` at some
      point, and how often it has moved the shared count up and down. */
  datatype Task = Task(phase: Phase, authenticated: bool, everAuthenticated: bool, adds: nat, subs: nat)

  const NEW_TASK := Task(Accepted, false, false, 0, 0)

  datatype Server = Server(count: nat, tasks: seq<Task>)

  const IDLE := Server(0, [])

  predicate Refused(limit: nat, prior: nat) {
    limit > 0 && prior >= limit
  }

  /** One atomic step of a connection task. `DispatchLogoff` ends the loop, as the source
      does after answering a Logoff; `Stop` is any other way out of the loop. */
  datatype Event = Reserve | Decide | BannerFails | BannerSent | Release
                 | DispatchLogin | DispatchOther | DispatchLogoff | Stop | CleanUp

  /** What an event does to the task and to the shared count, if it can occur. */
  ghost predicate TaskStep(limit: nat, count: nat, t: Task, e: Event, count': nat, t': Task) {
    match (e, t.phase)
    case (Reserve, Accepted) =>
      count' == FetchAdd(count) && t' == t.(phase := Reserved(count), adds := t.adds + 1)
    case (Decide, Reserved(prior)) =>
      if Refused(limit, prior) then
        count' == FetchSub(count) && t' == t.(phase := Finished, subs := t.subs + 1)
      else
        count' == count && t' == t.(phase := Greeting)
    case (BannerFails, Greeting) =>
      count' == FetchSub(count) && t' == t.(phase := Finished, subs := t.subs + 1)
    case (BannerSent, Greeting) =>
      count' == count && t' == t.(phase := LoopHead(true))
    case (Release, LoopHead(held)) =>
      if t.authenticated && held then
        count' == FetchSub(count) && t' == t.(phase := Reading(false), subs := t.subs + 1)
      else
        count' == count && t' == t.(phase := Reading(held))
    case (DispatchLogin, Reading(held)) =>
      count' == count && t' == t.(phase := LoopHead(held), authenticated := true, everAuthenticated := true)
    case (DispatchOther, Reading(held)) =>
      count' == count && t' == t.(phase := LoopHead(held))
    case (DispatchLogoff, Reading(held)) =>
      count' == count && t' == t.(phase := Teardown(held), authenticated := false)
    case (Stop, Reading(held)) =>
      // A successful Login whose response cannot be sent also leaves this way.
      && count' == count
      && (t' == t.(phase := Teardown(held))
          || t' == t.(phase := Teardown(held), authenticated := true, everAuthenticated := true))
    case (CleanUp, Teardown(held)) =>
      if held then
        count' == FetchSub(count) && t' == t.(phase := Finished, subs := t.subs + 1)
      else
        count' == count && t' == t.(phase := Finished)
    case _ => false
  }

  /** A step of the server: a new connection arrives, or some task takes one step. The
      process never accepts as many connections as a machine word can count. */
  ghost predicate Next(limit: nat, s: Server, s': Server) {
    || (s' == Server(s.count, s.tasks + [NEW_TASK]) && |s'.tasks| < WORD)
    || exists i, e: Event, t': Task ::
         0 <= i < |s.tasks| && TaskStep(limit, s.count, s.tasks[i], e, s'.count, t') && s'.tasks == s.tasks[i := t']
  }

  ghost predicate IsRun(limit: nat, run: seq<Server>) {
    && run != [] && run[0] == IDLE
    && forall i :: 0 <= i < |run| - 1 ==> Next(limit, run[i], run[i + 1])
  }

  /** Between its `fetch_add` and its `fetch_sub`. */
  predicate Holds(t: Task) {
    match t.phase
    case Accepted => false
    case Reserved(_) => true
    case Greeting => true
    case LoopHead(held) => held
    case Reading(held) => held
    case Teardown(held) => held
    case Finished => false
  }

  /** Holds a slot that the gate grants. */
  predicate Admitted(limit: nat, t: Task) {
    Holds(t) && !(t.phase.Reserved? && Refused(limit, t.phase.prior))
  }

  predicate PastGate(t: Task) {
    t.phase.Greeting? || t.phase.LoopHead? || t.phase.Reading? || t.phase.Teardown?
  }

  function Count(tasks: seq<Task>, p: Task -> bool): nat {
    if tasks == [] then 0 else Count(tasks[1..], p) + (if p(tasks[0]) then 1 else 0)
  }

  lemma {:induction false} CountUpdate(tasks: seq<Task>, p: Task -> bool, i: nat, t: Task)
    requires i < |tasks|
    ensures Count(tasks[i := t], p) ==
            Count(tasks, p) - (if p(tasks[i]) then 1 else 0) + (if p(t) then 1 else 0)
  {
    var u := tasks[i := t];
    if i == 0 {
      assert u[1..] == tasks[1..];
    } else {
      assert u[1..] == tasks[1..][i - 1 := t];
      CountUpdate(tasks[1..], p, i - 1, t);
    }
  }

  lemma {:induction false} CountAppend(tasks: seq<Task>, p: Task -> bool, t: Task)
    ensures Count(tasks + [t], p) == Count(tasks, p) + (if p(t) then 1 else 0)
  {
    if tasks != [] {
      assert (tasks + [t])[1..] == tasks[1..] + [t];
      CountAppend(tasks[1..], p, t);
    }
  }

  lemma {:induction false} CountMonotone(tasks: seq<Task>, p: Task -> bool, q: Task -> bool)
    requires forall t :: p(t) ==> q(t)
    ensures Count(tasks, p) <= Count(tasks, q) <= |tasks|
  {
    if tasks != [] {
      CountMonotone(tasks[1..], p, q);
    }
  }

  lemma {:induction false} CountNone(tasks: seq<Task>, p: Task -> bool)
    requires forall i :: 0 <= i < |tasks| ==> !p(tasks[i])
    ensures Count(tasks, p) == 0
  {
    if tasks != [] {
      CountNone(tasks[1..], p);
    }
  }

  lemma {:induction false} CountSome(tasks: seq<Task>, p: Task -> bool, i: nat)
    requires i < |tasks| && p(tasks[i])
    ensures Count(tasks, p) >= 1
  {
    if i > 0 {
      CountSome(tasks[1..], p, i - 1);
    }
  }

  /** Per task: it moves the count up at most once, down at most once and only after; the
      slot flag follows authentication, so a task that reads unauthenticated holds a slot. */
  ghost predicate TaskInv(t: Task) {
    && t.adds == (if t.phase.Accepted? then 0 else 1)
    && t.subs == (if Holds(t) || t.phase.Accepted? then 0 else 1)
    && (t.authenticated ==> t.everAuthenticated)
    && (t.phase.Accepted? || t.phase.Reserved? || t.phase.Greeting? ==> !t.everAuthenticated)
    && (t.phase.LoopHead? || t.phase.Reading? ==> (t.authenticated <==> t.everAuthenticated))
    && (PastGate(t) && !t.everAuthenticated ==> Holds(t))
  }

  ghost predicate Inv(limit: nat, s: Server) {
    && |s.tasks| < WORD
    && (forall i :: 0 <= i < |s.tasks| ==> TaskInv(s.tasks[i]))
    && s.count == Count(s.tasks, Holds)
    && (limit > 0 ==> Count(s.tasks, t => Admitted(limit, t)) <= limit)
  }

  lemma TaskStepKeepsTaskInv(limit: nat, count: nat, t: Task, e: Event, count': nat, t': Task)
    requires TaskInv(t) && TaskStep(limit, count, t, e, count', t')
    ensures TaskInv(t')
  {
  }

  /** A held slot is given up exactly when the count goes down; nothing else moves it. */
  lemma TaskStepMovesCount(limit: nat, count: nat, t: Task, e: Event, count': nat, t': Task)
    requires TaskStep(limit, count, t, e, count', t')
    ensures count' == if !Holds(t) && Holds(t') then FetchAdd(count)
                      else if Holds(t) && !Holds(t') then FetchSub(count)
                      else count
    ensures !Admitted(limit, t) && Admitted(limit, t') ==>
              !Holds(t) && (limit == 0 || count < limit)
  {
  }

  lemma {:induction false} StepKeepsInv(limit: nat, s: Server, i: nat, e: Event, t': Task, s': Server)
    requires Inv(limit, s) && i < |s.tasks|
    requires TaskStep(limit, s.count, s.tasks[i], e, s'.count, t') && s'.tasks == s.tasks[i := t']
    ensures Inv(limit, s')
    // The shared count never wraps, in either direction.
    ensures s'.count == FetchAdd(s.count) != s.count ==> s'.count == s.count + 1
    ensures Holds(s.tasks[i]) && !Holds(t') ==> s.count > 0 && s'.count == s.count - 1
  {
    var t := s.tasks[i];
    var admitted := (u: Task) => Admitted(limit, u);
    TaskStepKeepsTaskInv(limit, s.count, t, e, s'.count, t');
    TaskStepMovesCount(limit, s.count, t, e, s'.count, t');
    CountUpdate(s.tasks, Holds, i, t');
    CountUpdate(s.tasks, admitted, i, t');
    CountMonotone(s.tasks, Holds, Holds);
    CountMonotone(s.tasks, admitted, Holds);
    if Holds(t) {
      CountSome(s.tasks, Holds, i);
    } else {
      CountMonotone(s'.tasks, Holds, Holds);
    }
  }

  lemma {:induction false} NextKeepsInv(limit: nat, s: Server, s': Server)
    requires Inv(limit, s) && Next(limit, s, s')
    ensures Inv(limit, s')
  {
    if s' == Server(s.count, s.tasks + [NEW_TASK]) && |s'.tasks| < WORD {
      CountAppend(s.tasks, Holds, NEW_TASK);
      CountAppend(s.tasks, t => Admitted(limit, t), NEW_TASK);
    } else {
      var i, e: Event, t': Task :|
        0 <= i < |s.tasks| && TaskStep(limit, s.count, s.tasks[i], e, s'.count, t') && s'.tasks == s.tasks[i := t'];
      StepKeepsInv(limit, s, i, e, t', s');
    }
  }

  lemma {:induction false} RunKeepsInv(limit: nat, run: seq<Server>, k: nat)
    requires IsRun(limit, run) && k < |run|
    ensures Inv(limit, run[k])
  {
    if k > 0 {
      RunKeepsInv(limit, run, k - 1);
      NextKeepsInv(limit, run[k - 1], run[k]);
    }
  }

  /** Admission, over every interleaving: the shared count is the number of tasks between
      their `fetch_add` and their one `fetch_sub`; at most `limit` tasks past the gate
      hold a slot; a task past the gate that has not authenticated holds one; and when
      all tasks have finished the count is zero. */
  lemma {:induction false} AdmissionHolds(limit: nat, run: seq<Server>, k: nat)
    requires IsRun(limit, run) && k < |run|
    ensures var s := run[k];
            && s.count == Count(s.tasks, Holds)
            && (forall i :: 0 <= i < |s.tasks| ==>
                  && s.tasks[i].subs <= s.tasks[i].adds <= 1
                  && s.tasks[i].adds - s.tasks[i].subs == (if Holds(s.tasks[i]) then 1 else 0)
                  && (PastGate(s.tasks[i]) && !s.tasks[i].everAuthenticated ==> Holds(s.tasks[i])))
            && (limit > 0 ==> Count(s.tasks, t => PastGate(t) && Holds(t)) <= limit)
            && ((forall i :: 0 <= i < |s.tasks| ==> s.tasks[i].phase.Finished?) ==> s.count == 0)
  {
    RunKeepsInv(limit, run, k);
    var s := run[k];
    CountMonotone(s.tasks, t => PastGate(t) && Holds(t), t => Admitted(limit, t));
    if forall i :: 0 <= i < |s.tasks| ==> s.tasks[i].phase.Finished? {
      CountNone(s.tasks, Holds);
    }
  }

  /** A task that finished moved the count up once and down once. */
  lemma {:induction false} ReleasedExactlyOnce(limit: nat, run: seq<Server>, k: nat, i: nat)
    requires IsRun(limit, run) && k < |run| && i < |run[k].tasks|
    requires run[k].tasks[i].phase.Finished?
    ensures run[k].tasks[i].adds == 1 && run[k].tasks[i].subs == 1
  {
    RunKeepsInv(limit, run, k);
  }

  // ----- The gate -----

  /** At moment `j` task `i` reserved, when `prior` tasks held a slot. */
  ghost predicate ReservedAt(run: seq<Server>, j: nat, i: nat, prior: nat) {
    && j + 1 < |run| && i < |run[j].tasks| && i < |run[j + 1].tasks|
    && run[j].tasks[i].phase == Accepted && run[j + 1].tasks[i].phase == Reserved(prior)
    && Count(run[j].tasks, Holds) == prior
  }

  /** What one step of the server does to one task. */
  lemma {:induction false} TaskMoves(limit: nat, s: Server, s': Server, i: nat)
    requires Next(limit, s, s') && i < |s'.tasks|
    ensures i < |s.tasks| ==>
              || s'.tasks[i] == s.tasks[i]
              || exists e :: TaskStep(limit, s.count, s.tasks[i], e, s'.count, s'.tasks[i])
    ensures i >= |s.tasks| ==> s'.tasks[i] == NEW_TASK
  {
    hide TaskStep;
  }

  /** A task that has reserved saw exactly the slots held at that moment. */
  lemma {:induction false} PriorIsCount(limit: nat, run: seq<Server>, k: nat, i: nat)
    requires IsRun(limit, run) && k < |run| && i < |run[k].tasks| && run[k].tasks[i].phase.Reserved?
    ensures exists j: nat :: j < k && ReservedAt(run, j, i, run[k].tasks[i].phase.prior)
  {
    if k > 0 {
      TaskMoves(limit, run[k - 1], run[k], i);
      RunKeepsInv(limit, run, k - 1);
      assert Next(limit, run[k - 1], run[k - 1 + 1]);
      hide Next, Inv;
      if i < |run[k - 1].tasks| && run[k - 1].tasks[i].phase.Reserved? {
        PriorIsCount(limit, run, k - 1, i);
      } else {
        CountIsHeld(limit, run, k - 1);
        assert ReservedAt(run, k - 1, i, run[k].tasks[i].phase.prior);
      }
    }
  }

  lemma CountIsHeld(limit: nat, run: seq<Server>, k: nat)
    requires IsRun(limit, run) && k < |run|
    ensures run[k].count == Count(run[k].tasks, Holds)
  {
    RunKeepsInv(limit, run, k);
  }

  /** Who gets in: when a task decides, it is refused if and only if there is a limit and, at
      the moment it reserved, at least that many tasks held a slot; otherwise it is greeted. */
  lemma {:induction false} RefusedExactly(limit: nat, run: seq<Server>, k: nat, i: nat)
    requires IsRun(limit, run) && k + 1 < |run| && i < |run[k].tasks| && i < |run[k + 1].tasks|
    requires run[k].tasks[i].phase.Reserved? && run[k + 1].tasks[i] != run[k].tasks[i]
    ensures exists j: nat :: j < k && ReservedAt(run, j, i, run[k].tasks[i].phase.prior)
    ensures run[k + 1].tasks[i].phase ==
            if limit > 0 && run[k].tasks[i].phase.prior >= limit then Finished else Greeting
  {
    PriorIsCount(limit, run, k, i);
    TaskMoves(limit, run[k], run[k + 1], i);
    hide ReservedAt, Next;
  }
}
