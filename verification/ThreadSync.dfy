/**
  The owner-and-level lock and the queue it guards (src/thread.hh), as a machine
  whose steps are the single reads and writes of shared variables by any number of
  threads, in any order.
 */
module ThreadSync {
  import opened Wrappers

  /** Where a thread is in the code; `tmp` is the value it has read of `level`. */
  datatype Pc<T> =
    | Out
      // lock: compare the owner, and count one level more or take the mutex
    | LockTest | AgainRead | AgainWrite(tmp: int)
    | Acquire | FirstRead | FirstWrite(tmp: int) | FirstTest | FirstAssert | FirstOwn
      // unlock: count one level less, and release at zero
    | UnlockAssert | UnlockRead | UnlockWrite(tmp: int) | UnlockTest | UnlockDisown | UnlockMutex
      // getData: copy the front, then pop it
    | GetFront | GetPop(item: T)
      // an assertion has failed; the front of an empty queue was read
    | Failed | Underflow

  /** A thread: its place, how many locks it has not yet unlocked, and whether its last check saw data. */
  datatype Thread<T> = Thread(pc: Pc<T>, depth: nat, seen: bool)

  /**
    `reentrant` is whether lock starts by comparing the owner, which is compiled in
    for Apple only. `put` and `taken` record the history of the queue.
   */
  datatype State<T> = State(
    reentrant: bool, mutex: Option<nat>, owner: Option<nat>, level: int,
    threads: seq<Thread<T>>, queue: seq<T>, put: seq<T>, taken: seq<T>)

  /** A thread calls something, or goes on with the call it is in. */
  datatype Action<T> = Lock | Unlock | Put(item: T) | Check | Get | Go

  function Start<T>(reentrant: bool, n: nat): State<T> {
    State(reentrant, None, None, 0, seq(n, _ => Thread(Out, 0, false)), [], [], [])
  }

  /** Callers unlock only what they have locked, and use the queue only while they hold the lock. */
  predicate Enabled<T>(s: State<T>, t: nat, a: Action<T>) {
    t < |s.threads| && var th := s.threads[t];
    match a
    case Lock => th.pc.Out?
    case Go => !th.pc.Out? && !th.pc.Failed? && !th.pc.Underflow? && (th.pc.Acquire? ==> s.mutex == None)
    case _ => th.pc.Out? && th.depth > 0
  }

  function At<T>(s: State<T>, t: nat, pc: Pc<T>): State<T>
    requires t < |s.threads|
  {
    s.(threads := s.threads[t := s.threads[t].(pc := pc)])
  }

  /** The thread's call returns, with that many locks outstanding. */
  function Return<T>(s: State<T>, t: nat, depth: nat): State<T>
    requires t < |s.threads|
  {
    s.(threads := s.threads[t := s.threads[t].(pc := Out, depth := depth)])
  }

  function Apply<T>(s: State<T>, t: nat, a: Action<T>): State<T>
    requires Enabled(s, t, a)
  {
    match a
    case Lock => At(s, t, if s.reentrant then LockTest else Acquire)
    case Unlock => At(s, t, UnlockAssert)
    case Put(item) => s.(queue := s.queue + [item], put := s.put + [item])
    case Check => s.(threads := s.threads[t := s.threads[t].(seen := s.queue != [])])
    case Get => s.(threads := s.threads[t := s.threads[t].(pc := GetFront, seen := false)])
    case Go => Advance(s, t)
  }

  function Advance<T>(s: State<T>, t: nat): State<T>
    requires Enabled(s, t, Go)
  {
    var depth := s.threads[t].depth;
    match s.threads[t].pc
    case LockTest => At(s, t, if s.owner == Some(t) then AgainRead else Acquire)
    case AgainRead => At(s, t, AgainWrite(s.level))
    case AgainWrite(tmp) => Return(s.(level := tmp + 1), t, depth + 1)
    case Acquire => At(s.(mutex := Some(t)), t, FirstRead)
    case FirstRead => At(s, t, FirstWrite(s.level))
    case FirstWrite(tmp) => At(s.(level := tmp + 1), t, FirstTest)
    case FirstTest => At(s, t, if s.owner != None then FirstAssert else FirstOwn)
    case FirstAssert => if s.owner == Some(t) then Return(s, t, depth + 1) else At(s, t, Failed)
    case FirstOwn => Return(s.(owner := Some(t)), t, depth + 1)
    case UnlockAssert => At(s, t, if s.owner == Some(t) then UnlockRead else Failed)
    case UnlockRead => At(s, t, UnlockWrite(s.level))
    case UnlockWrite(tmp) => At(s.(level := tmp - 1), t, UnlockTest)
    case UnlockTest => if s.level == 0 then At(s, t, UnlockDisown) else Return(s, t, if depth > 0 then depth - 1 else 0)
    case UnlockDisown => At(s.(owner := None), t, UnlockMutex)
    case UnlockMutex => Return(s.(mutex := None), t, if depth > 0 then depth - 1 else 0)
    case GetFront => At(s, t, if s.queue == [] then Underflow else GetPop(s.queue[0]))
    case GetPop(item) =>
      Return(s.(queue := if s.queue == [] then [] else s.queue[1..], taken := s.taken + [item]), t, depth)
  }

  datatype Turn<T> = Turn(thread: nat, action: Action<T>)

  /** The state after a run; None if some turn was not possible. */
  function Execute<T>(s: State<T>, run: seq<Turn<T>>): Option<State<T>>
    decreases |run|
  {
    if run == [] then
      Some(s)
    else if Enabled(s, run[0].thread, run[0].action) then
      Execute(Apply(s, run[0].thread, run[0].action), run[1..])
    else
      None
  }

  // ---------- the lock ----------

  /** Between taking the mutex and giving it back. */
  predicate Inside<T>(th: Thread<T>) {
    match th.pc
    case Out => th.depth > 0
    case LockTest => th.depth > 0
    case Acquire => th.depth > 0
    case _ => true
  }

  /** What the owner and the level are while the thread holds the mutex. */
  predicate Books<T>(s: State<T>, t: nat, th: Thread<T>) {
    match th.pc
    case AgainWrite(tmp) => s.owner == Some(t) && s.level == th.depth == tmp
    case FirstRead => s.owner == None && s.level == th.depth == 0
    case FirstWrite(tmp) => s.owner == None && s.level == th.depth == tmp == 0
    case FirstTest => s.owner == None && s.level == 1 && th.depth == 0
    case FirstOwn => s.owner == None && s.level == 1 && th.depth == 0
    case FirstAssert => false
    case UnlockWrite(tmp) => s.owner == Some(t) && s.level == th.depth == tmp > 0
    case UnlockTest => s.owner == Some(t) && s.level == th.depth - 1 >= 0
    case UnlockDisown => s.owner == Some(t) && s.level == 0 && th.depth == 1
    case UnlockMutex => s.owner == None && s.level == 0 && th.depth == 1
    case Failed => false
    case _ => s.owner == Some(t) && s.level == th.depth > 0
  }

  /** A thread's own part of the invariant. */
  predicate ThreadOk<T>(s: State<T>, t: nat)
    requires t < |s.threads|
  {
    var th := s.threads[t];
    && (Inside(th) <==> s.mutex == Some(t))
    && (Inside(th) ==> Books(s, t, th))
    && (s.reentrant && th.pc.Acquire? ==> th.depth == 0)
  }

  predicate LockInv<T>(s: State<T>) {
    && (forall t :: 0 <= t < |s.threads| ==> ThreadOk(s, t))
    && (s.mutex == None ==> s.owner == None && s.level == 0)
    && (s.mutex.Some? ==> s.mutex.value < |s.threads|)
  }

  predicate SameLock<T>(s: State<T>, next: State<T>) {
    next.mutex == s.mutex && next.owner == s.owner && next.level == s.level
  }

  /** A step of one thread: only the one inside changes the lock, or one enters, or the one inside leaves. */
  ghost predicate LocalStep<T>(s: State<T>, next: State<T>, t: nat) {
    && next.reentrant == s.reentrant
    && |next.threads| == |s.threads|
    && t < |s.threads|
    && (forall u :: 0 <= u < |s.threads| && u != t ==> next.threads[u] == s.threads[u])
    && (SameLock(s, next) || (s.mutex == Some(t) && next.mutex == Some(t)) ||
        (s.mutex == None && next.mutex == Some(t)) ||
        (s.mutex == Some(t) && next.mutex == None && next.owner == None && next.level == 0))
    && ThreadOk(next, t)
  }

  lemma LocalStepKeeps<T>(s: State<T>, next: State<T>, t: nat)
    requires LockInv(s) && LocalStep(s, next, t)
    ensures LockInv(next)
  {
    forall u | 0 <= u < |next.threads|
      ensures ThreadOk(next, u)
    {
      if u != t {
        assert ThreadOk(s, u) && next.threads[u] == s.threads[u];
      }
    }
  }

  /** The unsynchronised comparison of the owner comes out true only for the thread inside. */
  lemma OwnerTestIsExact<T>(s: State<T>, t: nat)
    requires LockInv(s) && t < |s.threads| && s.threads[t].pc.LockTest?
    ensures s.owner == Some(t) <==> s.mutex == Some(t)
    ensures s.owner == Some(t) <==> s.threads[t].depth > 0
  {
    assert ThreadOk(s, t);
    if s.mutex.Some? {
      assert ThreadOk(s, s.mutex.value);
    }
  }

  lemma LockingIsLocal<T>(s: State<T>, t: nat)
    requires LockInv(s) && Enabled(s, t, Go)
    requires var pc := s.threads[t].pc;
      pc.LockTest? || pc.AgainRead? || pc.AgainWrite? || pc.Acquire? || pc.FirstRead? || pc.FirstWrite? || pc.FirstTest?
      || pc.FirstAssert? || pc.FirstOwn?
    ensures LocalStep(s, Advance(s, t), t)
  {
    assert ThreadOk(s, t);
    match s.threads[t].pc
    case LockTest => OwnerTestIsExact(s, t);
    case AgainRead =>
    case AgainWrite(tmp) =>
    case Acquire =>
    case FirstRead =>
    case FirstWrite(tmp) =>
    case FirstTest =>
    case FirstAssert =>
    case FirstOwn =>
    case _ =>
  }

  lemma UnlockingIsLocal<T>(s: State<T>, t: nat)
    requires LockInv(s) && Enabled(s, t, Go)
    requires var pc := s.threads[t].pc;
      pc.UnlockAssert? || pc.UnlockRead? || pc.UnlockWrite? || pc.UnlockTest? || pc.UnlockDisown? || pc.UnlockMutex?
    ensures LocalStep(s, Advance(s, t), t)
  {
    assert ThreadOk(s, t);
    match s.threads[t].pc
    case UnlockAssert =>
    case UnlockRead =>
    case UnlockWrite(tmp) =>
    case UnlockTest =>
    case UnlockDisown =>
    case UnlockMutex =>
    case _ =>
  }

  lemma GettingIsLocal<T>(s: State<T>, t: nat)
    requires LockInv(s) && Enabled(s, t, Go) && (s.threads[t].pc.GetFront? || s.threads[t].pc.GetPop?)
    ensures LocalStep(s, Advance(s, t), t)
  {
    assert ThreadOk(s, t);
  }

  lemma StepKeepsLock<T>(s: State<T>, t: nat, a: Action<T>)
    requires LockInv(s) && Enabled(s, t, a)
    ensures LockInv(Apply(s, t, a))
  {
    if a.Go? {
      match s.threads[t].pc
      case UnlockAssert => UnlockingIsLocal(s, t);
      case UnlockRead => UnlockingIsLocal(s, t);
      case UnlockWrite(tmp) => UnlockingIsLocal(s, t);
      case UnlockTest => UnlockingIsLocal(s, t);
      case UnlockDisown => UnlockingIsLocal(s, t);
      case UnlockMutex => UnlockingIsLocal(s, t);
      case GetFront => GettingIsLocal(s, t);
      case GetPop(item) => GettingIsLocal(s, t);
      case _ => LockingIsLocal(s, t);
    } else {
      assert ThreadOk(s, t);
    }
    LocalStepKeeps(s, Apply(s, t, a), t);
  }

  // ---------- the queue ----------

  /** The queue holds what was put and not taken, and what is being taken is its front. */
  ghost predicate QueueInv<T>(s: State<T>) {
    && s.put == s.taken + s.queue
    && forall t :: 0 <= t < |s.threads| && s.threads[t].pc.GetPop? ==> s.queue != [] && s.queue[0] == s.threads[t].pc.item
  }

  lemma PopKeepsQueue<T>(s: State<T>, next: State<T>, t: nat)
    requires LockInv(s) && QueueInv(s) && Enabled(s, t, Go) && s.threads[t].pc.GetPop? && next == Advance(s, t)
    ensures QueueInv(next)
  {
    forall u | 0 <= u < |next.threads|
      ensures !next.threads[u].pc.GetPop?
    {
      assert ThreadOk(s, t) && ThreadOk(s, u);
    }
    assert s.queue == [s.queue[0]] + s.queue[1..];
    assert next.put == next.taken + next.queue;
  }

  lemma OtherStepsLeaveQueue<T>(s: State<T>, t: nat)
    requires Enabled(s, t, Go) && !s.threads[t].pc.GetPop?
    ensures var next := Advance(s, t);
      && |next.threads| == |s.threads| && (forall u :: 0 <= u < |s.threads| && u != t ==> next.threads[u] == s.threads[u])
      && next.queue == s.queue && next.put == s.put && next.taken == s.taken
      && (next.threads[t].pc.GetPop? ==> s.queue != [] && next.threads[t].pc.item == s.queue[0])
  {
  }

  lemma GoKeepsQueue<T>(s: State<T>, next: State<T>, t: nat)
    requires LockInv(s) && QueueInv(s) && Enabled(s, t, Go) && next == Advance(s, t)
    ensures QueueInv(next)
  {
    if s.threads[t].pc.GetPop? {
      PopKeepsQueue(s, next, t);
    } else {
      OtherStepsLeaveQueue(s, t);
    }
  }

  lemma StepKeepsQueue<T>(s: State<T>, t: nat, a: Action<T>)
    requires LockInv(s) && QueueInv(s) && Enabled(s, t, a)
    ensures QueueInv(Apply(s, t, a))
  {
    var next := Apply(s, t, a);
    if a.Go? {
      GoKeepsQueue(s, next, t);
    } else {
      if a.Put? {
        assert next.put == s.taken + (s.queue + [a.item]);
      }
      forall u | 0 <= u < |s.threads| && next.threads[u].pc.GetPop?
        ensures next.queue != [] && next.queue[0] == next.threads[u].pc.item
      {
        assert next.threads[u].pc == s.threads[u].pc;
      }
    }
  }

  // ---------- every run ----------

  lemma {:induction false} RunKeepsInv<T>(s: State<T>, run: seq<Turn<T>>)
    requires LockInv(s) && QueueInv(s) && Execute(s, run).Some?
    ensures LockInv(Execute(s, run).value) && QueueInv(Execute(s, run).value)
    decreases |run|
  {
    if run != [] {
      StepKeepsLock(s, run[0].thread, run[0].action);
      StepKeepsQueue(s, run[0].thread, run[0].action);
      RunKeepsInv(Apply(s, run[0].thread, run[0].action), run[1..]);
    }
  }

  /** What a turn puts. */
  function PutBy<T>(turn: Turn<T>): seq<T> {
    if turn.action.Put? then [turn.action.item] else []
  }

  /** The items that the turns of a run put, in order. */
  function ItemsPut<T>(run: seq<Turn<T>>): seq<T> {
    if run == [] then [] else PutBy(run[0]) + ItemsPut(run[1..])
  }

  lemma StepPuts<T>(s: State<T>, turn: Turn<T>)
    requires Enabled(s, turn.thread, turn.action)
    ensures Apply(s, turn.thread, turn.action).put == s.put + PutBy(turn)
  {
    assert s.put + [] == s.put;
  }

  lemma Regroup<T>(a: seq<T>, b: seq<T>, c: seq<T>)
    ensures (a + b) + c == a + (b + c)
  {
  }

  /** Every item put, and nothing else, has gone through the queue or is still in it. */
  lemma {:induction false} RunPuts<T>(s: State<T>, run: seq<Turn<T>>)
    requires Execute(s, run).Some?
    ensures Execute(s, run).value.put == s.put + ItemsPut(run)
    decreases |run|
  {
    if run == [] {
      assert s.put + [] == s.put;
    } else {
      StepPuts(s, run[0]);
      RunPuts(Apply(s, run[0].thread, run[0].action), run[1..]);
      Regroup(s.put, PutBy(run[0]), ItemsPut(run[1..]));
    }
  }

  /** A check tells whether the queue has something, and does nothing else. */
  lemma CheckSees<T>(s: State<T>, t: nat)
    requires Enabled(s, t, Check)
    ensures var next := Apply(s, t, Check);
      && (next.threads[t].seen <==> s.queue != [])
      && next.(threads := s.threads) == s && next.threads[t].(seen := s.threads[t].seen) == s.threads[t]
      && |next.threads| == |s.threads| && forall u :: 0 <= u < |s.threads| && u != t ==> next.threads[u] == s.threads[u]
  {
  }

  /** What the invariant says of one thread, or of two. */
  lemma ThreadIsSafe<T>(s: State<T>, t: nat, u: nat)
    requires LockInv(s) && t < |s.threads| && u < |s.threads|
    ensures Inside(s.threads[t]) && Inside(s.threads[u]) ==> t == u
    ensures Inside(s.threads[t]) <==> s.mutex == Some(t)
    ensures !s.threads[t].pc.Failed?
    ensures s.threads[t].pc.Out? && s.threads[t].depth > 0 ==>
      s.mutex == s.owner == Some(t) && s.level == s.threads[t].depth
  {
    assert ThreadOk(s, t) && ThreadOk(s, u);
  }

  /**
    Whatever the threads do and in whatever order: at most one is inside, no assertion
    fails, a thread that can use the queue owns the lock at a level equal to the number of
    its locks, the free mutex has level 0, and the items taken and those in the queue are
    the ones that the run has put, in this order.
   */
  lemma RunIsSafe<T>(reentrant: bool, n: nat, run: seq<Turn<T>>)
    requires Execute(Start(reentrant, n), run).Some?
    ensures var s := Execute(Start(reentrant, n), run).value;
      && (forall t, u :: 0 <= t < |s.threads| && 0 <= u < |s.threads| && Inside(s.threads[t]) && Inside(s.threads[u]) ==>
            t == u)
      && (forall t :: 0 <= t < |s.threads| ==> !s.threads[t].pc.Failed?)
      && (forall t :: 0 <= t < |s.threads| && s.threads[t].pc.Out? && s.threads[t].depth > 0 ==>
            s.mutex == s.owner == Some(t) && s.level == s.threads[t].depth)
      && (s.mutex == None ==> s.owner == None && s.level == 0)
      && s.put == ItemsPut(run) && s.taken + s.queue == ItemsPut(run)
  {
    RunKeepsInv(Start(reentrant, n), run);
    RunPuts(Start(reentrant, n), run);
    var s := Execute(Start(reentrant, n), run).value;
    forall t: nat, u: nat | t < |s.threads| && u < |s.threads|
      ensures Inside(s.threads[t]) && Inside(s.threads[u]) ==> t == u
      ensures !s.threads[t].pc.Failed?
      ensures s.threads[t].pc.Out? && s.threads[t].depth > 0 ==>
        s.mutex == s.owner == Some(t) && s.level == s.threads[t].depth
    {
      ThreadIsSafe(s, t, u);
    }
  }

  /** With the comparison of the owner compiled in, no thread ever waits for itself. */
  lemma ReentrantNeverWaitsForItself<T>(n: nat, run: seq<Turn<T>>, t: nat)
    requires Execute(Start(true, n), run).Some?
    requires var s := Execute(Start(true, n), run).value; t < |s.threads| && s.threads[t].pc.Acquire?
    ensures Execute(Start(true, n), run).value.mutex != Some(t)
  {
    RunKeepsInv(Start(true, n), run);
    RunKeepsMode(Start(true, n), run);
    assert ThreadOk(Execute(Start(true, n), run).value, t);
  }

  lemma {:induction false} RunKeepsMode<T>(s: State<T>, run: seq<Turn<T>>)
    requires LockInv(s) && Execute(s, run).Some?
    ensures Execute(s, run).value.reentrant == s.reentrant
    decreases |run|
  {
    if run != [] {
      StepKeepsLock(s, run[0].thread, run[0].action);
      RunKeepsMode(Apply(s, run[0].thread, run[0].action), run[1..]);
    }
  }

  /** Without it, a thread that locks again blocks itself, and everyone else, for good. */
  lemma {:induction false} RelockBlocksForever<T>(s: State<T>, run: seq<Turn<T>>, t: nat)
    requires LockInv(s) && t < |s.threads| && s.threads[t].pc.Acquire? && s.threads[t].depth > 0
    requires Execute(s, run).Some?
    ensures var end := Execute(s, run).value;
      && |end.threads| == |s.threads| && end.threads[t] == s.threads[t] && end.mutex == Some(t)
      && forall u :: 0 <= u < |end.threads| && u != t ==> !Inside(end.threads[u])
    decreases |run|
  {
    assert ThreadOk(s, t);
    if run == [] {
      forall u: nat | u < |s.threads| && u != t
        ensures !Inside(s.threads[u])
      {
        ThreadIsSafe(s, t, u);
      }
    } else {
      var next := Apply(s, run[0].thread, run[0].action);
      StepKeepsLock(s, run[0].thread, run[0].action);
      assert run[0].thread != t;
      RelockBlocksForever(next, run[1..], t);
    }
  }

  lemma {:induction false} ExecuteMore<T>(s: State<T>, run: seq<Turn<T>>, more: seq<Turn<T>>)
    requires Execute(s, run).Some?
    ensures Execute(s, run + more) == Execute(Execute(s, run).value, more)
    decreases |run|
  {
    if run == [] {
      assert run + more == more;
    } else {
      assert (run + more)[1..] == run[1..] + more;
      ExecuteMore(Apply(s, run[0].thread, run[0].action), run[1..], more);
    }
  }

  /** Two steps of one thread, the second one inside a call. */
  lemma TwoSteps<T>(s: State<T>, t: nat, a: Action<T>) returns (run: seq<Turn<T>>)
    requires Enabled(s, t, a) && Enabled(Apply(s, t, a), t, Go)
    ensures Execute(s, run) == Some(Apply(Apply(s, t, a), t, Go))
  {
    run := [Turn(t, a), Turn(t, Go)];
    var between := Apply(s, t, a);
    var last: seq<Turn<T>> := [Turn(t, Go)];
    assert run[1..] == last && last[1..] == [];
    assert Execute(between, last) == Execute(Apply(between, t, Go), []);
  }

  /** A get that no other thread comes between takes the front of the queue, and nothing else. */
  lemma GetTakesFront<T>(s: State<T>, t: nat) returns (run: seq<Turn<T>>, end: State<T>)
    requires Enabled(s, t, Get) && s.queue != []
    ensures Execute(s, run) == Some(end) && end.taken == s.taken + [s.queue[0]] && end.queue == s.queue[1..]
    ensures |end.threads| == |s.threads| && end.threads[t] == s.threads[t].(seen := false)
  {
    var read := Apply(Apply(s, t, Get), t, Go);
    end := Apply(read, t, Go);
    run := TwoSteps(s, t, Get);
    var last: seq<Turn<T>> := [Turn(t, Go)];
    assert Execute(read, last) == Execute(end, last[1..]) == Some(end);
    ExecuteMore(s, run, last);
    run := run + last;
  }

  /** A thread that meets nobody takes the mutex, counts one level, and becomes the owner. */
  lemma FirstMutex<T>(s: State<T>, t: nat) returns (run: seq<Turn<T>>, next: State<T>)
    requires !s.reentrant && s.mutex == None && t < |s.threads| && s.threads[t].pc.Out?
    ensures Execute(s, run) == Some(next) && next.owner == s.owner && next.reentrant == s.reentrant
    ensures |next.threads| == |s.threads| && next.threads[t] == s.threads[t].(pc := FirstRead)
  {
    run := TwoSteps(s, t, Lock);
    next := Apply(Apply(s, t, Lock), t, Go);
  }

  lemma FirstLevel<T>(s: State<T>, t: nat) returns (run: seq<Turn<T>>, next: State<T>)
    requires t < |s.threads| && s.threads[t].pc.FirstRead?
    ensures Execute(s, run) == Some(next) && next.owner == s.owner && next.reentrant == s.reentrant
    ensures |next.threads| == |s.threads| && next.threads[t] == s.threads[t].(pc := FirstTest)
  {
    run := TwoSteps(s, t, Go);
    next := Apply(Apply(s, t, Go), t, Go);
  }

  lemma FirstOwner<T>(s: State<T>, t: nat) returns (run: seq<Turn<T>>, next: State<T>)
    requires t < |s.threads| && s.threads[t].pc.FirstTest? && s.owner == None
    ensures Execute(s, run) == Some(next) && next.reentrant == s.reentrant
    ensures |next.threads| == |s.threads| && next.threads[t] == s.threads[t].(pc := Out, depth := s.threads[t].depth + 1)
  {
    run := TwoSteps(s, t, Go);
    next := Apply(Apply(s, t, Go), t, Go);
  }

  lemma FirstLock<T>(s: State<T>, t: nat) returns (run: seq<Turn<T>>, next: State<T>)
    requires !s.reentrant && s.mutex == s.owner == None && t < |s.threads| && s.threads[t].pc.Out?
    ensures Execute(s, run) == Some(next) && next.reentrant == s.reentrant
    ensures |next.threads| == |s.threads| && next.threads[t] == s.threads[t].(depth := s.threads[t].depth + 1)
  {
    var first, entered := FirstMutex(s, t);
    var second, counted := FirstLevel(entered, t);
    var third;
    third, next := FirstOwner(counted, t);
    run := first + (second + third);
    ExecuteMore(entered, second, third);
    ExecuteMore(s, first, second + third);
  }

  /** Any thread gets there from the start, without the comparison: it locks, and locks again. */
  lemma SecondLockBlocks<T>(n: nat, t: nat) returns (run: seq<Turn<T>>)
    requires t < n
    ensures var end := Execute(Start<T>(false, n), run);
      end.Some? && LockInv(end.value) && |end.value.threads| == n
      && end.value.threads[t].pc.Acquire? && end.value.threads[t].depth > 0
  {
    var s, again: Turn<T> := Start<T>(false, n), Turn(t, Lock);
    var locked;
    run, locked := FirstLock(s, t);
    ExecuteMore(s, run, [again]);
    assert Execute(Apply(locked, t, Lock), [again][1..]) == Some(Apply(locked, t, Lock));
    run := run + [again];
    RunKeepsInv(s, run);
  }

  // ---------- one consumer that checks first ----------

  /** Only thread c takes items, and only after its last check saw some. */
  predicate Disciplined<T>(s: State<T>, run: seq<Turn<T>>, c: nat)
    requires Execute(s, run).Some?
    decreases |run|
  {
    run == [] ||
    ((run[0].action.Get? ==> run[0].thread == c && s.threads[c].seen) &&
     Disciplined(Apply(s, run[0].thread, run[0].action), run[1..], c))
  }

  predicate ConsumerOk<T>(s: State<T>, c: nat) {
    forall t :: 0 <= t < |s.threads| ==>
      && !s.threads[t].pc.Underflow?
      && (s.threads[t].pc.GetFront? ==> s.queue != [])
      && (s.threads[t].pc.GetFront? || s.threads[t].pc.GetPop? ==> t == c && !s.threads[t].seen)
      && (t == c && s.threads[t].seen ==> s.queue != [])
  }

  lemma StepKeepsConsumer<T>(s: State<T>, next: State<T>, t: nat, a: Action<T>, c: nat)
    requires ConsumerOk(s, c) && Enabled(s, t, a) && (a.Get? ==> t == c && s.threads[c].seen) && next == Apply(s, t, a)
    ensures ConsumerOk(next, c)
  {
    if a.Go? && !s.threads[t].pc.GetPop? {
      OtherStepsLeaveQueue(s, t);
    }
  }

  lemma {:induction false} SingleConsumerNeverUnderflows<T>(s: State<T>, run: seq<Turn<T>>, c: nat)
    requires ConsumerOk(s, c) && Execute(s, run).Some? && Disciplined(s, run, c)
    ensures forall t :: 0 <= t < |Execute(s, run).value.threads| ==> !Execute(s, run).value.threads[t].pc.Underflow?
    decreases |run|
  {
    if run != [] {
      var next := Apply(s, run[0].thread, run[0].action);
      StepKeepsConsumer(s, next, run[0].thread, run[0].action, c);
      SingleConsumerNeverUnderflows(next, run[1..], c);
    }
  }
}
