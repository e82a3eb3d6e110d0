/** pread built from seek and read on a shared file position, under one lock. */
module PreadProtocol {
  import opened Bytes

  datatype Request = Request(count: nat, offset: int)

  /** A thread outside pread, waiting for the lock, or at a numbered step inside it. `prev` is the
      saved position, -1 when it could not be read; `cc` the result so far, None for -1; `failed`
      records whether one of its system calls failed. */
  datatype Thread =
    | Idle
    | Waiting(req: Request)
    | Inside(at: Label, req: Request, prev: int, cc: Option<seq<byte>>, failed: bool)

  datatype Label = SeekCurrent | SeekSet | Reading | Restoring | Leaving

  datatype Completion = Completion(thread: nat, req: Request, cc: Option<seq<byte>>, failed: bool)

  datatype State = State(
    file: seq<byte>, pos: int, lock: Option<nat>, threads: seq<Thread>, done: seq<Completion>)

  /** One step of one thread. A call that fails leaves the position anywhere (`landed`). */
  datatype Action =
    | Call(t: nat, req: Request)
    | Acquire(t: nat)
    | DoSeekCurrent(t: nat, ok: bool)
    | DoSeekSet(t: nat, ok: bool, landed: nat)
    | DoRead(t: nat, ok: bool, landed: nat)
    | Restore(t: nat, ok: bool, landed: nat)
    | Leave(t: nat)

  predicate AtLabel(s: State, t: nat, l: Label) {
    t < |s.threads| && s.threads[t].Inside? && s.threads[t].at == l
  }

  predicate Enabled(s: State, a: Action) {
    match a
    case Call(t, _) => t < |s.threads| && s.threads[t].Idle?
    case Acquire(t) => t < |s.threads| && s.threads[t].Waiting? && s.lock.None?
    case DoSeekCurrent(t, _) => AtLabel(s, t, SeekCurrent)
    case DoSeekSet(t, ok, _) => AtLabel(s, t, SeekSet) && (ok ==> s.threads[t].req.offset >= 0)
    case DoRead(t, _, _) => AtLabel(s, t, Reading)
    case Restore(t, _, _) => AtLabel(s, t, Restoring)
    case Leave(t) => AtLabel(s, t, Leaving)
  }

  function Apply(s: State, a: Action): State
    requires Enabled(s, a)
  {
    var t := a.t;
    var th := s.threads[t];
    match a
    case Call(_, req) => s.(threads := s.threads[t := Waiting(req)])
    case Acquire(_) => s.(lock := Some(t), threads := s.threads[t := Inside(SeekCurrent, th.req, -1, None, false)])
    case DoSeekCurrent(_, ok) =>
      if ok then s.(threads := s.threads[t := th.(at := SeekSet, prev := s.pos)])
      else s.(threads := s.threads[t := th.(at := Leaving, failed := true)])
    case DoSeekSet(_, ok, landed) =>
      if ok then s.(pos := th.req.offset, threads := s.threads[t := th.(at := Reading)])
      else s.(pos := landed, threads := s.threads[t := th.(at := Restoring, failed := true)])
    case DoRead(_, ok, landed) =>
      if ok then
        var r := Pread(s.file, th.req.count, s.pos);
        s.(pos := s.pos + if r.Some? then |r.value| else 0,
           threads := s.threads[t := th.(at := Restoring, cc := r)])
      else s.(pos := landed, threads := s.threads[t := th.(at := Restoring, failed := true)])
    case Restore(_, ok, landed) =>
      s.(pos := if ok then th.prev else landed, threads := s.threads[t := th.(at := Leaving)])
    case Leave(_) =>
      s.(lock := None, threads := s.threads[t := Idle], done := s.done + [Completion(t, th.req, th.cc, th.failed)])
  }

  /** A schedule: any interleaving of enabled steps, folded from the first. */
  predicate Possible(s: State, actions: seq<Action>)
    decreases |actions|
  {
    actions == [] || (Enabled(s, actions[0]) && Possible(Apply(s, actions[0]), actions[1..]))
  }

  function Outcome(s: State, actions: seq<Action>): State
    requires Possible(s, actions)
    decreases |actions|
  {
    if actions == [] then s else Outcome(Apply(s, actions[0]), actions[1..])
  }

  predicate Initial(s: State) {
    s.pos >= 0 && s.lock.None? && s.done == [] && forall t | 0 <= t < |s.threads| :: s.threads[t].Idle?
  }

  /** The result is -1 if one of the system calls before the restoring seek failed, else the bytes at
      the request's offset. */
  predicate Honest(file: seq<byte>, req: Request, cc: Option<seq<byte>>, failed: bool) {
    cc == if failed then None else Pread(file, req.count, req.offset)
  }

  /** What the lock holder has done at each of its steps. */
  predicate HolderInv(s: State, th: Thread) {
    && th.Inside?
    && match th.at
       case SeekCurrent => th.cc.None? && !th.failed
       case SeekSet => th.cc.None? && !th.failed
       case Reading => th.cc.None? && !th.failed && s.pos == th.req.offset
       case Restoring => Honest(s.file, th.req, th.cc, th.failed)
       case Leaving => Honest(s.file, th.req, th.cc, th.failed)
  }

  predicate Inv(s: State, file: seq<byte>) {
    && s.file == file
    && (forall t | 0 <= t < |s.threads| :: s.threads[t].Inside? <==> s.lock == Some(t))
    && (s.lock.Some? ==> s.lock.value < |s.threads| && HolderInv(s, s.threads[s.lock.value]))
    && (forall k | 0 <= k < |s.done| :: Honest(file, s.done[k].req, s.done[k].cc, s.done[k].failed))
  }

  lemma StepKeepsInv(s: State, a: Action)
    requires Inv(s, s.file) && Enabled(s, a)
    ensures Inv(Apply(s, a), s.file)
  {
    hide Pread;
  }

  lemma {:induction false} RunKeepsInv(s: State, actions: seq<Action>)
    requires Inv(s, s.file) && Possible(s, actions)
    ensures Inv(Outcome(s, actions), s.file)
    decreases |actions|
  {
    if actions != [] {
      StepKeepsInv(s, actions[0]);
      hide Inv, Enabled, Apply;
      RunKeepsInv(Apply(s, actions[0]), actions[1..]);
    }
  }

  // ------------------------------------------------------------ the shared position

  /** Where the lock holder has left the position; `home` is the one to come back to. */
  predicate HomeInv(s: State, home: int) {
    match s.lock
    case None => s.pos == home
    case Some(t) =>
      && t < |s.threads| && s.threads[t].Inside?
      && match s.threads[t].at
         case SeekCurrent => s.pos == home
         case SeekSet => s.pos == home && s.threads[t].prev == home
         case Reading => s.threads[t].prev == home
         case Restoring => s.threads[t].prev == home
         case Leaving => s.pos == home
  }

  /** No restoring seek fails. */
  predicate RestoresSucceed(actions: seq<Action>) {
    forall k | 0 <= k < |actions| && actions[k].Restore? :: actions[k].ok
  }

  lemma StepKeepsHome(s: State, a: Action, home: int)
    requires Inv(s, s.file) && HomeInv(s, home) && Enabled(s, a) && (a.Restore? ==> a.ok)
    ensures HomeInv(Apply(s, a), home)
  {
    hide Pread, HolderInv, Honest;
  }

  lemma {:induction false} RunKeepsHome(s: State, actions: seq<Action>, home: int)
    requires Inv(s, s.file) && HomeInv(s, home) && Possible(s, actions) && RestoresSucceed(actions)
    ensures HomeInv(Outcome(s, actions), home)
    decreases |actions|
  {
    if actions != [] {
      StepKeepsInv(s, actions[0]);
      StepKeepsHome(s, actions[0], home);
      assert forall k | 0 <= k < |actions| - 1 :: actions[1..][k] == actions[k + 1];
      hide Inv, HomeInv, Enabled, Apply;
      RunKeepsHome(Apply(s, actions[0]), actions[1..], home);
    }
  }

  // ------------------------------------------------------------ which calls succeed

  /** Whether a step's system call, if it makes one, succeeds. */
  predicate Succeeds(a: Action) {
    match a
    case DoSeekCurrent(_, ok) => ok
    case DoSeekSet(_, ok, _) => ok
    case DoRead(_, ok, _) => ok
    case _ => true
  }

  /** No system call of thread t fails; others may. */
  predicate NeverFails(actions: seq<Action>, t: nat) {
    forall k | 0 <= k < |actions| && actions[k].t == t :: Succeeds(actions[k])
  }

  predicate Clean(s: State, t: nat) {
    && (t < |s.threads| && s.threads[t].Inside? ==> !s.threads[t].failed)
    && forall k | 0 <= k < |s.done| && s.done[k].thread == t :: !s.done[k].failed
  }

  lemma {:induction false} RunKeepsClean(s: State, actions: seq<Action>, t: nat)
    requires Clean(s, t) && NeverFails(actions, t) && Possible(s, actions)
    ensures Clean(Outcome(s, actions), t)
    decreases |actions|
  {
    if actions != [] {
      StepKeepsClean(s, actions[0], t);
      assert forall k | 0 <= k < |actions| - 1 :: actions[1..][k] == actions[k + 1];
      hide Enabled, Apply, Clean, Succeeds;
      RunKeepsClean(Apply(s, actions[0]), actions[1..], t);
    }
  }

  lemma StepKeepsClean(s: State, a: Action, t: nat)
    requires Clean(s, t) && Enabled(s, a) && (a.t == t ==> Succeeds(a))
    ensures Clean(Apply(s, a), t)
  {
    hide Pread;
  }

  // ------------------------------------------------------------ every call is answered

  /** The requests thread t makes in a schedule, in order. */
  function Called(actions: seq<Action>, t: nat): seq<Request> {
    if actions == [] then []
    else (if actions[0].Call? && actions[0].t == t then [actions[0].req] else []) + Called(actions[1..], t)
  }

  /** The requests of thread t that were answered, in order. */
  function Answered(done: seq<Completion>, t: nat): seq<Request> {
    if done == [] then []
    else
      var last := done[|done| - 1];
      Answered(done[..|done| - 1], t) + if last.thread == t then [last.req] else []
  }

  /** The request a thread is busy with. */
  function Pending(th: Thread): seq<Request> {
    if th.Idle? then [] else [th.req]
  }

  /** Every request of a thread is answered once, in the order it was made, but for the last one
      when the thread is still busy with it. */
  lemma {:induction false} CallsAreAnswered(s: State, actions: seq<Action>, t: nat)
    requires Possible(s, actions) && t < |s.threads|
    ensures var e := Outcome(s, actions);
            && |e.threads| == |s.threads|
            && Answered(s.done, t) + Pending(s.threads[t]) + Called(actions, t) ==
               Answered(e.done, t) + Pending(e.threads[t])
    decreases |actions|
  {
    if actions != [] {
      StepAnswers(s, actions[0], t);
      hide Enabled, Apply, Answered, Pending;
      CallsAreAnswered(Apply(s, actions[0]), actions[1..], t);
    }
  }

  lemma StepAnswers(s: State, a: Action, t: nat)
    requires Enabled(s, a) && t < |s.threads|
    ensures var s' := Apply(s, a);
            && |s'.threads| == |s.threads|
            && Answered(s'.done, t) + Pending(s'.threads[t]) ==
               Answered(s.done, t) + Pending(s.threads[t]) + if a.Call? && a.t == t then [a.req] else []
  {
    StepShape(s, a);
    if a.Leave? {
      AnsweredSnoc(s.done, Apply(s, a).done[|s.done|], t);
    }
    hide Enabled, Apply, Answered, Pending;
  }

  lemma AnsweredSnoc(done: seq<Completion>, c: Completion, t: nat)
    ensures Answered(done + [c], t) == Answered(done, t) + if c.thread == t then [c.req] else []
  {
    assert (done + [c])[..|done|] == done;
  }

  /** A step moves its own thread only; a call takes a request up, leaving answers it. */
  lemma StepShape(s: State, a: Action)
    requires Enabled(s, a)
    ensures var s' := Apply(s, a);
            && |s'.threads| == |s.threads| > a.t
            && (forall u | 0 <= u < |s.threads| && u != a.t :: s'.threads[u] == s.threads[u])
            && (a.Call? ==> s'.done == s.done && Pending(s.threads[a.t]) == [] && Pending(s'.threads[a.t]) == [a.req])
            && (a.Leave? ==>
                  && |s'.done| == |s.done| + 1
                  && var c := s'.done[|s.done|];
                  && s'.done == s.done + [c] && c.thread == a.t
                  && Pending(s.threads[a.t]) == [c.req] && Pending(s'.threads[a.t]) == [])
            && (!a.Call? && !a.Leave? ==> s'.done == s.done && Pending(s'.threads[a.t]) == Pending(s.threads[a.t]))
  {
    hide Pread;
  }

  // ------------------------------------------------------------ the main theorem

  /** For every number of threads and every interleaving: a completed pread returned -1 if one of its
      system calls before the restoring seek failed and the file's bytes at its own offset otherwise, so
      always the bytes for a thread whose system calls all succeed; each thread's requests are answered
      in order; at most one thread is inside; and if no restoring seek failed, the shared position is
      where it was at the start whenever the lock is free. */
  lemma EveryInterleaving(s: State, actions: seq<Action>)
    requires Initial(s) && Possible(s, actions)
    ensures var e := Outcome(s, actions);
            && e.file == s.file
            && (forall k | 0 <= k < |e.done| :: Honest(s.file, e.done[k].req, e.done[k].cc, e.done[k].failed))
            && (forall k | 0 <= k < |e.done| && NeverFails(actions, e.done[k].thread) ::
                  e.done[k].cc == Pread(s.file, e.done[k].req.count, e.done[k].req.offset))
            && |e.threads| == |s.threads|
            && (forall t | 0 <= t < |s.threads| ::
                  Called(actions, t) == Answered(e.done, t) + Pending(e.threads[t]))
            && (forall t, u | 0 <= t < |e.threads| && 0 <= u < |e.threads| ::
                  e.threads[t].Inside? && e.threads[u].Inside? ==> t == u)
            && (RestoresSucceed(actions) && e.lock.None? ==> e.pos == s.pos)
  {
    var e := Outcome(s, actions);
    RunKeepsInv(s, actions);
    if RestoresSucceed(actions) {
      RunKeepsHome(s, actions, s.pos);
    }
    RunAnswers(s, actions);
    hide HolderInv, Outcome, Possible, Called, Answered, Pending, Pread, NeverFails, RestoresSucceed;
    forall k | 0 <= k < |e.done| && NeverFails(actions, e.done[k].thread)
      ensures !e.done[k].failed
    {
      RunKeepsClean(s, actions, e.done[k].thread);
    }
  }

  lemma RunAnswers(s: State, actions: seq<Action>)
    requires Initial(s) && Possible(s, actions)
    ensures var e := Outcome(s, actions);
            && |e.threads| == |s.threads|
            && forall t | 0 <= t < |s.threads| :: Called(actions, t) == Answered(e.done, t) + Pending(e.threads[t])
  {
    ThreadsStay(s, actions);
    hide Outcome, Possible, Called;
    forall t | 0 <= t < |s.threads|
      ensures Called(actions, t) == Answered(Outcome(s, actions).done, t) + Pending(Outcome(s, actions).threads[t])
    {
      CallsAreAnswered(s, actions, t);
    }
  }

  lemma {:induction false} ThreadsStay(s: State, actions: seq<Action>)
    requires Possible(s, actions)
    ensures |Outcome(s, actions).threads| == |s.threads|
    decreases |actions|
  {
    if actions != [] {
      StepShape(s, actions[0]);
      hide Enabled, Apply, Pending;
      ThreadsStay(Apply(s, actions[0]), actions[1..]);
    }
  }

  // ------------------------------------------------------------ no call is left hanging

  /** Steps a thread still has to take. */
  function Remaining(th: Thread): nat {
    match th
    case Idle => 0
    case Waiting(_) => 6
    case Inside(at, _, _, _, _) =>
      (match at case SeekCurrent => 5 case SeekSet => 4 case Reading => 3 case Restoring => 2 case Leaving => 1)
  }

  function Work(threads: seq<Thread>): nat {
    if threads == [] then 0 else Remaining(threads[0]) + Work(threads[1..])
  }

  lemma {:induction false} WorkUpdate(threads: seq<Thread>, t: nat, th: Thread)
    requires t < |threads|
    ensures Work(threads[t := th]) == Work(threads) - Remaining(threads[t]) + Remaining(th)
  {
    if t == 0 {
      assert threads[0 := th][1..] == threads[1..];
    } else {
      WorkUpdate(threads[1..], t - 1, th);
      assert threads[t := th][1..] == threads[1..][t - 1 := th];
    }
  }

  /** Unless every thread is idle, some step other than a new call is enabled, and it need not fail
      except for a seek to a negative offset. */
  lemma NeverStuck(s: State) returns (a: Action)
    requires Inv(s, s.file)
    requires exists t :: 0 <= t < |s.threads| && !s.threads[t].Idle?
    ensures Enabled(s, a) && !a.Call?
    ensures Succeeds(a) || (AtLabel(s, a.t, SeekSet) && s.threads[a.t].req.offset < 0)
  {
    if s.lock.Some? {
      var t := s.lock.value;
      match s.threads[t].at
      case SeekCurrent => a := DoSeekCurrent(t, true);
      case SeekSet => a := DoSeekSet(t, s.threads[t].req.offset >= 0, 0);
      case Reading => a := DoRead(t, true, 0);
      case Restoring => a := Restore(t, true, 0);
      case Leaving => a := Leave(t);
    } else {
      var t :| 0 <= t < |s.threads| && !s.threads[t].Idle?;
      a := Acquire(t);
    }
  }

  lemma StepWorks(s: State, a: Action)
    requires Enabled(s, a) && !a.Call?
    ensures var s' := Apply(s, a);
            && a.t < |s.threads| && |s'.threads| == |s.threads|
            && s'.threads == s.threads[a.t := s'.threads[a.t]]
            && Remaining(s'.threads[a.t]) < Remaining(s.threads[a.t])
  {
    hide Pread;
  }

  lemma {:induction false} StepsAreBounded(s: State, actions: seq<Action>)
    requires Possible(s, actions) && forall k | 0 <= k < |actions| :: !actions[k].Call?
    ensures Work(Outcome(s, actions).threads) + |actions| <= Work(s.threads)
    decreases |actions|
  {
    if actions != [] {
      var a := actions[0];
      StepWorks(s, a);
      var s' := Apply(s, a);
      WorkUpdate(s.threads, a.t, s'.threads[a.t]);
      assert forall k | 0 <= k < |actions| - 1 :: actions[1..][k] == actions[k + 1];
      hide Work, Enabled, Apply, Remaining;
      StepsAreBounded(s', actions[1..]);
    }
  }

  // ------------------------------------------------------------ one call by itself

  /** The descriptor the calls share. */
  class Descriptor {
    const file: seq<byte>
    var pos: int

    constructor (file: seq<byte>)
      ensures this.file == file && pos == 0
    {
      this.file := file;
      pos := 0;
    }
  }

  /** One more step at the end of a schedule. */
  lemma {:induction false} Extend(s: State, actions: seq<Action>, a: Action)
    requires Possible(s, actions) && Enabled(Outcome(s, actions), a)
    ensures Possible(s, actions + [a]) && Outcome(s, actions + [a]) == Apply(Outcome(s, actions), a)
    decreases |actions|
  {
    if actions == [] {
      var next := Apply(s, a);
      assert [a][1..] == [];
      assert Possible(next, []) && Outcome(next, []) == next;
      assert [] + [a] == [a];
    } else {
      hide Enabled, Apply;
      assert (actions + [a])[1..] == actions[1..] + [a];
      Extend(Apply(s, actions[0]), actions[1..], a);
    }
  }

  /** All steps are those of calls thread t has already made. */
  predicate StepsOf(actions: seq<Action>, t: nat) {
    forall k | 0 <= k < |actions| :: actions[k].t == t && !actions[k].Call?
  }

  /** The state while thread t holds the lock; nothing else has moved since s. */
  function Holding(s: State, t: nat, th: Thread, pos: int): State
    requires t < |s.threads|
  {
    s.(lock := Some(t), pos := pos, threads := s.threads[t := th])
  }

  /** A step the lock holder takes. */
  predicate Within(th: Thread, a: Action) {
    && th.Inside?
    && match th.at
       case SeekCurrent => a.DoSeekCurrent?
       case SeekSet => a.DoSeekSet? && (a.ok ==> th.req.offset >= 0)
       case Reading => a.DoRead?
       case Restoring => a.Restore?
       case Leaving => false
  }

  lemma Then(s: State, actions: seq<Action>, t: nat, th: Thread, pos: int, a: Action)
    returns (actions': seq<Action>, th': Thread, pos': int)
    requires Possible(s, actions) && t < |s.threads| && Outcome(s, actions) == Holding(s, t, th, pos)
    requires a.t == t && Within(th, a) && StepsOf(actions, t)
    ensures Possible(s, actions') && StepsOf(actions', t)
    ensures Outcome(s, actions') == Holding(s, t, th', pos')
    ensures match a
            case DoSeekCurrent(_, ok) =>
              pos' == pos && th' == if ok then th.(at := SeekSet, prev := pos) else th.(at := Leaving, failed := true)
            case DoSeekSet(_, ok, landed) =>
              && pos' == (if ok then th.req.offset else landed)
              && th' == if ok then th.(at := Reading) else th.(at := Restoring, failed := true)
            case DoRead(_, ok, landed) =>
              var r := Pread(s.file, th.req.count, pos);
              && pos' == (if !ok then landed else if r.Some? then pos + |r.value| else pos)
              && th' == if ok then th.(at := Restoring, cc := r) else th.(at := Restoring, failed := true)
            case Restore(_, ok, landed) =>
              pos' == (if ok then th.prev else landed) && th' == th.(at := Leaving)
            case _ => true
  {
    Extend(s, actions, a);
    actions' := actions + [a];
    hide Possible, Outcome, Pread;
    var e := Apply(Holding(s, t, th, pos), a);
    th', pos' := e.threads[t], e.pos;
    assert e.threads == s.threads[t := th'];
  }

  lemma Enter(s: State, t: nat) returns (th: Thread)
    requires s.lock.None? && t < |s.threads| && s.threads[t].Waiting?
    ensures th == Inside(SeekCurrent, s.threads[t].req, -1, None, false)
    ensures StepsOf([Acquire(t)], t)
    ensures Possible(s, [Acquire(t)]) && Outcome(s, [Acquire(t)]) == Holding(s, t, th, s.pos)
  {
    assert Possible(s, []) && Outcome(s, []) == s && [] + [Acquire(t)] == [Acquire(t)];
    Extend(s, [], Acquire(t));
    th := Inside(SeekCurrent, s.threads[t].req, -1, None, false);
    hide Possible, Outcome;
  }

  lemma Exit(s: State, actions: seq<Action>, t: nat, th: Thread, pos: int)
    requires s.lock.None? && t < |s.threads|
    requires Possible(s, actions) && Outcome(s, actions) == Holding(s, t, th, pos)
    requires th.Inside? && th.at == Leaving && StepsOf(actions, t)
    ensures Possible(s, actions + [Leave(t)]) && StepsOf(actions + [Leave(t)], t)
    ensures Outcome(s, actions + [Leave(t)]) ==
            s.(pos := pos, threads := s.threads[t := Idle],
               done := s.done + [Completion(t, th.req, th.cc, th.failed)])
  {
    Extend(s, actions, Leave(t));
    hide Possible, Outcome;
    assert s.threads[t := th][t := Idle] == s.threads[t := Idle];
  }

  /** pread as written; the flags say which system calls fail, `landed` and `strayed` where a failure
      leaves the position. Each call is the step of one thread, and the schedule of these steps is
      returned. */
  method PreadCall(fd: Descriptor, count: nat, offset: int,
                   currentOk: bool, setOk: bool, readOk: bool, restoreOk: bool, landed: nat, strayed: nat,
                   ghost t: nat, ghost s: State) returns (cc: Option<seq<byte>>, ghost actions: seq<Action>)
    requires fd.pos >= 0 && s.pos == fd.pos && s.file == fd.file
    requires s.lock.None? && t < |s.threads| && s.threads[t] == Waiting(Request(count, offset))
    modifies fd
    ensures fd.pos == if currentOk && !restoreOk then strayed else old(fd.pos)
    ensures cc == if currentOk && setOk && readOk then Pread(fd.file, count, offset) else None
    ensures Possible(s, actions) && StepsOf(actions, t)
    ensures var failed := !(currentOk && setOk && offset >= 0 && readOk);
            Outcome(s, actions) ==
            s.(pos := fd.pos, threads := s.threads[t := Idle],
               done := s.done + [Completion(t, Request(count, offset), cc, failed)])
  {
    hide Possible, Outcome, Holding, StepsOf;
    cc := None;
    var prev := -1;
    ghost var pos := s.pos;
    ghost var th := Enter(s, t);
    actions := [Acquire(t)];
    if currentOk {
      prev := fd.pos;
    }
    actions, th, pos := Then(s, actions, t, th, pos, DoSeekCurrent(t, currentOk));
    if prev != -1 {
      actions, th, pos := Then(s, actions, t, th, pos, DoSeekSet(t, setOk && offset >= 0, landed));
      if setOk && offset >= 0 {
        fd.pos := offset;
        actions, th, pos := Then(s, actions, t, th, pos, DoRead(t, readOk, landed));
        if readOk {
          cc := Pread(fd.file, count, fd.pos);
          fd.pos := fd.pos + if cc.Some? then |cc.value| else 0;
        } else {
          fd.pos := landed;
        }
      } else {
        fd.pos := landed;
      }
    }
    assert pos == fd.pos && th.cc == cc && th.prev == prev;
    if prev != -1 {
      fd.pos := if restoreOk then prev else strayed;
      actions, th, pos := Then(s, actions, t, th, pos, Restore(t, restoreOk, strayed));
    }
    Exit(s, actions, t, th, pos);
    actions := actions + [Leave(t)];
  }
}
