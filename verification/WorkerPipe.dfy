/** The message pipe between threads: every interleaving of posters, receivers and owners of one pipe. */
module WorkerPipe {

  /** A shared buffer is known by its address. */
  type Sab = int

  datatype Message = Message(data: seq<int>, sabTab: seq<Sab>)

  /** Where a thread stands in js_worker_postMessage, handle_posted_message or js_free_message_pipe. */
  datatype Thread =
    | Idle
    | Duping(msg: Message, i: nat)
    | PostLock(msg: Message)
    | PostTest(msg: Message)
    | PostAdd(msg: Message)
    | PostUnlock(msg: Message)
    | RecvLock
    | RecvTest
    | RecvNone
    | RecvWake(msg: Message)
    | RecvUnlock(msg: Message)
    | RecvRead(msg: Message)
    | RecvFree(msg: Message, i: nat)
    | Draining
    | DrainFree(msg: Message, i: nat)

  /** The shared state. refs holds every shared buffer as often as its count says; held is the part that
    * script objects own; posted, taken and discarded are the history of the queue. */
  datatype Shared = Shared(
    holder: int, queue: seq<Message>, bytes: nat, refs: multiset<Sab>, held: multiset<Sab>,
    pipeRefs: nat, owners: nat, freed: bool, posted: seq<Message>, taken: seq<Message>, discarded: seq<Message>)

  datatype State = State(threads: seq<Thread>, shared: Shared)

  datatype Outcome = Wait | Then(thread: Thread, shared: Shared)

  /** What an idle thread may begin, and what reading a message may create. */
  datatype Choice =
    | Go
    | StartPost(msg: Message)
    | StartRecv
    | DupPipe
    | DropPipe
    | SabAlloc(sab: Sab)
    | SabDup(sab: Sab)
    | SabFree(sab: Sab)
    | Read(got: multiset<Sab>)

  /** How often x stands among the first n entries of a table of buffers, and from entry i on. */
  function Shares(tab: seq<Sab>, n: nat, x: Sab): nat
    requires n <= |tab|
  {
    if n == 0 then 0 else Shares(tab, n - 1, x) + (if tab[n - 1] == x then 1 else 0)
  }

  function Rest(tab: seq<Sab>, i: nat, x: Sab): nat
    requires i <= |tab|
    decreases |tab| - i
  {
    if i == |tab| then 0 else (if tab[i] == x then 1 else 0) + Rest(tab, i + 1, x)
  }

  function Uses(msg: Message, x: Sab): nat { Rest(msg.sabTab, 0, x) }

  lemma {:induction false} SharesRest(tab: seq<Sab>, i: nat, x: Sab)
    requires i <= |tab|
    ensures Shares(tab, i, x) + Rest(tab, i, x) == Rest(tab, 0, x)
  {
    if i > 0 { SharesRest(tab, i - 1, x); }
  }

  /** The buffers that the argument of postMessage keeps alive during the call. */
  function Pins(msg: Message): multiset<Sab> { multiset(set x | x in msg.sabTab) }

  function Init(n: nat): State { State(seq(n, _ => Idle), Shared(-1, [], 0, multiset{}, multiset{}, 1, 1, false, [], [], [])) }

  /** An idle thread begins a call, or its scripts create, share or drop a buffer. */
  function IdleAct(s: Shared, c: Choice): Outcome {
    match c
    case StartPost(m) =>
      if s.owners > 0 && Pins(m) <= s.held then Then(Duping(m, 0), s.(owners := s.owners - 1, held := s.held - Pins(m))) else Wait
    case StartRecv => if s.owners > 0 then Then(RecvLock, s.(owners := s.owners - 1)) else Wait
    case DupPipe => if s.owners > 0 then Then(Idle, s.(owners := s.owners + 1, pipeRefs := s.pipeRefs + 1)) else Wait
    case DropPipe =>
      if s.owners > 0 && s.pipeRefs > 0 then
        Then(if s.pipeRefs == 1 then Draining else Idle, s.(owners := s.owners - 1, pipeRefs := s.pipeRefs - 1))
      else Wait
    case SabAlloc(x) => if x !in s.refs then Then(Idle, s.(refs := s.refs + multiset{x}, held := s.held + multiset{x})) else Wait
    case SabDup(x) => if x in s.held then Then(Idle, s.(refs := s.refs + multiset{x}, held := s.held + multiset{x})) else Wait
    case SabFree(x) => if x in s.held then Then(Idle, s.(refs := s.refs - multiset{x}, held := s.held - multiset{x})) else Wait
    case _ => Wait
  }

  /** js_worker_postMessage: share the buffers, then under the mutex wake a receiver of an empty queue and append. */
  function PostAct(l: Thread, s: Shared, t: nat): Outcome {
    match l
    case Duping(m, i) =>
      if i < |m.sabTab| then Then(Duping(m, i + 1), s.(refs := s.refs + multiset{m.sabTab[i]})) else Then(PostLock(m), s)
    case PostLock(m) => if s.holder == -1 then Then(PostTest(m), s.(holder := t)) else Wait
    case PostTest(m) => Then(PostAdd(m), s.(bytes := s.bytes + (if s.queue == [] then 1 else 0)))
    case PostAdd(m) => Then(PostUnlock(m), s.(queue := s.queue + [m], posted := s.posted + [m]))
    case PostUnlock(m) => Then(Idle, s.(holder := -1, owners := s.owners + 1, held := s.held + Pins(m)))
    case _ => Wait
  }

  /** handle_posted_message: under the mutex take the first message and, if it was the last, read the wake-up
    * byte, which waits while the pipe is empty; then read and free the message. */
  function RecvAct(l: Thread, s: Shared, t: nat, c: Choice): Outcome {
    match l
    case RecvLock => if s.holder == -1 then Then(RecvTest, s.(holder := t)) else Wait
    case RecvTest =>
      if s.queue == [] then Then(RecvNone, s)
      else Then(RecvWake(s.queue[0]), s.(queue := s.queue[1..], taken := s.taken + [s.queue[0]]))
    case RecvNone => Then(Idle, s.(holder := -1, owners := s.owners + 1))
    case RecvWake(m) =>
      if s.queue != [] then Then(RecvUnlock(m), s)
      else if s.bytes > 0 then Then(RecvUnlock(m), s.(bytes := if s.bytes > 16 then s.bytes - 16 else 0))
      else Wait
    case RecvUnlock(m) => Then(RecvRead(m), s.(holder := -1, owners := s.owners + 1))
    case RecvRead(m) =>
      if c.Read? && c.got <= multiset(m.sabTab) then Then(RecvFree(m, 0), s.(refs := s.refs + c.got, held := s.held + c.got)) else Wait
    case RecvFree(m, i) =>
      if i < |m.sabTab| then Then(RecvFree(m, i + 1), s.(refs := s.refs - multiset{m.sabTab[i]})) else Then(Idle, s)
    case _ => Wait
  }

  /** js_free_message_pipe after the last reference is gone: frees the messages left, without the mutex. */
  function DrainAct(l: Thread, s: Shared): Outcome {
    match l
    case Draining =>
      if s.queue == [] then Then(Idle, s.(freed := true))
      else Then(DrainFree(s.queue[0], 0), s.(queue := s.queue[1..], discarded := s.discarded + [s.queue[0]]))
    case DrainFree(m, i) =>
      if i < |m.sabTab| then Then(DrainFree(m, i + 1), s.(refs := s.refs - multiset{m.sabTab[i]})) else Then(Draining, s)
    case _ => Wait
  }

  predicate Posting(l: Thread) { l.Duping? || l.PostLock? || l.PostTest? || l.PostAdd? || l.PostUnlock? }

  predicate InDrain(l: Thread) { l.Draining? || l.DrainFree? }

  /** One atomic action of a thread that stands at l. */
  function Act(l: Thread, s: Shared, t: nat, c: Choice): Outcome {
    if l.Idle? then IdleAct(s, c) else if Posting(l) then PostAct(l, s, t) else if InDrain(l) then DrainAct(l, s) else RecvAct(l, s, t, c)
  }

  /** Thread t moves from one state to the next. */
  predicate Next(s: State, t: nat, c: Choice, s': State) {
    t < |s.threads| && var o := Act(s.threads[t], s.shared, t, c); o.Then? && s' == State(s.threads[t := o.thread], o.shared)
  }

  // ----- the invariant -----

  predicate Holding(l: Thread) {
    l.PostTest? || l.PostAdd? || l.PostUnlock? || l.RecvTest? || l.RecvNone? || l.RecvWake? || l.RecvUnlock?
  }

  /** Threads whose worker object keeps one reference to the pipe during the call. */
  function Using(l: Thread): nat { if l.Duping? || l.PostLock? || l.RecvLock? || Holding(l) then 1 else 0 }

  function Freeing(l: Thread): nat { if l.Draining? || l.DrainFree? then 1 else 0 }

  function Total(f: Thread -> nat, ts: seq<Thread>): nat { if ts == [] then 0 else Total(f, ts[..|ts| - 1]) + f(ts[|ts| - 1]) }

  /** References to shared buffers that a thread itself is responsible for. */
  function Owned(l: Thread, x: Sab): nat {
    match l
    case Duping(m, i) => if i <= |m.sabTab| then Pins(m)[x] + Shares(m.sabTab, i, x) else 0
    case PostLock(m) => Pins(m)[x] + Uses(m, x)
    case PostTest(m) => Pins(m)[x] + Uses(m, x)
    case PostAdd(m) => Pins(m)[x] + Uses(m, x)
    case PostUnlock(m) => Pins(m)[x]
    case RecvWake(m) => Uses(m, x)
    case RecvUnlock(m) => Uses(m, x)
    case RecvRead(m) => Uses(m, x)
    case RecvFree(m, i) => if i <= |m.sabTab| then Rest(m.sabTab, i, x) else 0
    case DrainFree(m, i) => if i <= |m.sabTab| then Rest(m.sabTab, i, x) else 0
    case _ => 0
  }

  function OwnedAll(ts: seq<Thread>, x: Sab): nat { if ts == [] then 0 else OwnedAll(ts[..|ts| - 1], x) + Owned(ts[|ts| - 1], x) }

  function Queued(q: seq<Message>, x: Sab): nat { if q == [] then 0 else Uses(q[0], x) + Queued(q[1..], x) }

  predicate CountsOk(l: Thread) { l.Duping? || l.RecvFree? || l.DrainFree? ==> l.i <= |l.msg.sabTab| }

  /** Mutual exclusion. */
  predicate Mutex(s: State) {
    && -1 <= s.shared.holder < |s.threads|
    && forall t :: 0 <= t < |s.threads| ==> (Holding(s.threads[t]) <==> s.shared.holder == t) && CountsOk(s.threads[t])
  }

  predicate Between(l: Thread) { l.PostAdd? || l.RecvWake? }

  function Expected(busy: bool, q: seq<Message>): nat { if q != [] || busy then 1 else 0 }

  /** One wake-up byte exactly while the queue is not empty; between the test and the update, one byte. */
  predicate Awake(s: State) {
    s.shared.bytes == Expected(0 <= s.shared.holder < |s.threads| && Between(s.threads[s.shared.holder]), s.shared.queue)
  }

  predicate Fifo(s: Shared) { s.posted == s.taken + s.discarded + s.queue && (s.pipeRefs > 0 ==> s.discarded == []) }

  ghost predicate Counted(s: State) {
    forall x: Sab :: s.shared.refs[x] == s.shared.held[x] + OwnedAll(s.threads, x) + Queued(s.shared.queue, x)
  }

  predicate Lifetime(s: State) {
    && s.shared.pipeRefs == s.shared.owners + Total(Using, s.threads)
    && Total(Freeing, s.threads) + (if s.shared.freed then 1 else 0) == (if s.shared.pipeRefs == 0 then 1 else 0)
    && (s.shared.freed ==> s.shared.queue == [])
  }

  ghost predicate Inv(s: State) {
    Mutex(s) && (s.shared.pipeRefs > 0 ==> Awake(s)) && Fifo(s.shared) && Counted(s) && Lifetime(s)
  }

  // ----- sums over threads -----

  lemma {:induction false} TotalUpdate(f: Thread -> nat, ts: seq<Thread>, t: nat, l: Thread)
    requires t < |ts|
    ensures Total(f, ts[t := l]) + f(ts[t]) == Total(f, ts) + f(l)
  {
    var n := |ts| - 1;
    if t < n {
      TotalUpdate(f, ts[..n], t, l);
      assert ts[t := l][..n] == ts[..n][t := l];
    } else {
      assert ts[t := l][..n] == ts[..n];
    }
  }

  lemma {:induction false} TotalBound(f: Thread -> nat, ts: seq<Thread>, t: nat)
    requires t < |ts|
    ensures Total(f, ts) >= f(ts[t])
  {
    var n := |ts| - 1;
    if t < n { TotalBound(f, ts[..n], t); }
  }

  lemma {:induction false} TotalOther(f: Thread -> nat, ts: seq<Thread>, t: nat, u: nat)
    requires t < |ts| && u < |ts| && t != u
    ensures Total(f, ts) >= f(ts[t]) + f(ts[u])
  {
    var n := |ts| - 1;
    if t < n && u < n { TotalOther(f, ts[..n], t, u); }
    else if t < n { TotalBound(f, ts[..n], t); }
    else { TotalBound(f, ts[..n], u); }
  }

  lemma {:induction false} OwnedUpdate(ts: seq<Thread>, t: nat, l: Thread, x: Sab)
    requires t < |ts|
    ensures OwnedAll(ts[t := l], x) + Owned(ts[t], x) == OwnedAll(ts, x) + Owned(l, x)
  {
    hide Owned;
    var n := |ts| - 1;
    if t < n {
      OwnedUpdate(ts[..n], t, l, x);
      assert ts[t := l][..n] == ts[..n][t := l];
    } else {
      assert ts[t := l][..n] == ts[..n];
    }
  }

  lemma {:induction false} OwnedBound(ts: seq<Thread>, t: nat, x: Sab)
    requires t < |ts|
    ensures OwnedAll(ts, x) >= Owned(ts[t], x)
  {
    hide Owned;
    var n := |ts| - 1;
    if t < n { OwnedBound(ts[..n], t, x); }
  }

  lemma {:induction false} QueuedMore(q: seq<Message>, m: Message, x: Sab)
    ensures Queued(q + [m], x) == Queued(q, x) + Uses(m, x)
  {
    hide Uses;
    if q == [] {
      assert q + [m] == [m];
    } else {
      assert (q + [m])[1..] == q[1..] + [m];
      QueuedMore(q[1..], m, x);
    }
  }

  // ----- what one action does -----

  /** The action of a thread that stands at l takes it to l'. */
  predicate Acts(l: Thread, s: Shared, t: nat, c: Choice, l': Thread, s': Shared) { Act(l, s, t, c) == Then(l', s') }

  /** The mutex belongs to t exactly while it stands at l, and an action of t takes or returns only its own. */
  predicate MutexMove(l: Thread, s: Shared, t: nat, l': Thread, s': Shared) {
    && ((Holding(l) <==> s.holder == t) && CountsOk(l) ==> (Holding(l') <==> s'.holder == t) && CountsOk(l'))
    && ((Holding(l) <==> s.holder == t) ==> s'.holder == s.holder || ((s.holder == t || s.holder == -1) && (s'.holder == t || s'.holder == -1)))
  }

  /** References to the pipe move between owners and threads, and the last one starts the draining. */
  predicate LifetimeMove(l: Thread, s: Shared, l': Thread, s': Shared) {
    && s'.pipeRefs + s.owners + Using(l) == s.pipeRefs + s'.owners + Using(l')
    && Freeing(l') + (if s'.freed then 1 else 0) + (if s.pipeRefs == 0 then 1 else 0)
      == Freeing(l) + (if s.freed then 1 else 0) + (if s'.pipeRefs == 0 then 1 else 0)
    && (s'.freed ==> s'.queue == [])
  }

  predicate LifetimeBefore(l: Thread, s: Shared) {
    && (Using(l) == 1 ==> s.pipeRefs > 0) && (Freeing(l) == 1 ==> s.pipeRefs == 0 && !s.freed) && (s.pipeRefs > 0 ==> !s.freed)
    && s.pipeRefs >= s.owners + Using(l) && (s.freed ==> s.queue == [])
  }

  lemma IdleMoves(s: Shared, t: nat, c: Choice, l': Thread, s': Shared)
    requires IdleAct(s, c) == Then(l', s')
    ensures MutexMove(Idle, s, t, l', s') && (LifetimeBefore(Idle, s) ==> LifetimeMove(Idle, s, l', s'))
  {
    hide MutexMove, LifetimeMove;
    IdleMutex(s, t, c, l', s');
    IdleLifetime(s, c, l', s');
  }

  lemma IdleMutex(s: Shared, t: nat, c: Choice, l': Thread, s': Shared)
    requires IdleAct(s, c) == Then(l', s')
    ensures MutexMove(Idle, s, t, l', s')
  {
  }

  lemma IdleLifetime(s: Shared, c: Choice, l': Thread, s': Shared)
    requires IdleAct(s, c) == Then(l', s')
    ensures LifetimeBefore(Idle, s) ==> LifetimeMove(Idle, s, l', s')
  {
  }

  lemma PostMoves(l: Thread, s: Shared, t: nat, l': Thread, s': Shared)
    requires PostAct(l, s, t) == Then(l', s')
    ensures MutexMove(l, s, t, l', s') && (LifetimeBefore(l, s) ==> LifetimeMove(l, s, l', s'))
  {
  }

  lemma RecvMoves(l: Thread, s: Shared, t: nat, c: Choice, l': Thread, s': Shared)
    requires RecvAct(l, s, t, c) == Then(l', s')
    ensures MutexMove(l, s, t, l', s') && (LifetimeBefore(l, s) ==> LifetimeMove(l, s, l', s'))
  {
  }

  lemma DrainMoves(l: Thread, s: Shared, t: nat, l': Thread, s': Shared)
    requires DrainAct(l, s) == Then(l', s')
    ensures MutexMove(l, s, t, l', s') && (LifetimeBefore(l, s) ==> LifetimeMove(l, s, l', s'))
  {
  }

  lemma ActMoves(l: Thread, s: Shared, t: nat, c: Choice, l': Thread, s': Shared)
    requires Acts(l, s, t, c, l', s')
    ensures MutexMove(l, s, t, l', s') && (LifetimeBefore(l, s) ==> LifetimeMove(l, s, l', s'))
  {
    hide IdleAct, PostAct, RecvAct, DrainAct, MutexMove, LifetimeMove, LifetimeBefore;
    if l.Idle? { IdleMoves(s, t, c, l', s'); }
    else if Posting(l) { PostMoves(l, s, t, l', s'); }
    else if InDrain(l) { DrainMoves(l, s, t, l', s'); }
    else { RecvMoves(l, s, t, c, l', s'); }
  }

  /** Only three actions change the queue or its history. */
  lemma ActQuiet(l: Thread, s: Shared, t: nat, c: Choice, l': Thread, s': Shared)
    requires Acts(l, s, t, c, l', s') && !l.PostAdd? && !l.RecvTest? && !l.Draining?
    ensures s'.queue == s.queue && s'.posted == s.posted && s'.taken == s.taken && s'.discarded == s.discarded
    ensures s'.pipeRefs > 0 ==> s.pipeRefs > 0 || (l.Idle? && s.owners > 0)
  {
  }

  lemma ActFifo(l: Thread, s: Shared, t: nat, c: Choice, l': Thread, s': Shared)
    requires Acts(l, s, t, c, l', s') && Fifo(s) && (Using(l) == 1 ==> s.pipeRefs > 0) && (Freeing(l) == 1 ==> s.pipeRefs == 0)
    requires s.pipeRefs >= s.owners
    ensures Fifo(s')
  {
    if !l.PostAdd? && !l.RecvTest? && !l.Draining? {
      ActQuiet(l, s, t, c, l', s');
    } else if s.queue != [] {
      assert s.queue == [s.queue[0]] + s.queue[1..];
    }
  }

  /** The holder of the mutex keeps queue and wake-up byte in step; the others touch neither. */
  predicate AwakeMove(l: Thread, s: Shared, l': Thread, s': Shared) {
    && (Holding(l) && s.bytes == Expected(Between(l), s.queue) ==> s'.bytes == Expected(Between(l'), s'.queue))
    && (!Holding(l) ==> s'.bytes == s.bytes && s'.queue == s.queue && !Between(l'))
  }

  lemma IdleAwake(s: Shared, c: Choice, l': Thread, s': Shared)
    requires IdleAct(s, c) == Then(l', s')
    ensures AwakeMove(Idle, s, l', s')
  {
  }

  lemma PostAwake(l: Thread, s: Shared, t: nat, l': Thread, s': Shared)
    requires PostAct(l, s, t) == Then(l', s')
    ensures AwakeMove(l, s, l', s')
  {
  }

  lemma RecvAwake(l: Thread, s: Shared, t: nat, c: Choice, l': Thread, s': Shared)
    requires RecvAct(l, s, t, c) == Then(l', s')
    ensures AwakeMove(l, s, l', s')
  {
  }

  lemma ActAwake(l: Thread, s: Shared, t: nat, c: Choice, l': Thread, s': Shared)
    requires Acts(l, s, t, c, l', s') && Freeing(l) == 0
    ensures AwakeMove(l, s, l', s')
  {
    hide IdleAct, PostAct, RecvAct, DrainAct, AwakeMove;
    if l.Idle? { IdleAwake(s, c, l', s'); }
    else if Posting(l) { PostAwake(l, s, t, l', s'); }
    else { RecvAwake(l, s, t, c, l', s'); }
  }

  lemma OwnedOf(m: Message, x: Sab)
    ensures Owned(PostTest(m), x) == Owned(PostLock(m), x) == Owned(PostAdd(m), x) == Pins(m)[x] + Uses(m, x)
    ensures Owned(Duping(m, 0), x) == Pins(m)[x] == Owned(PostUnlock(m), x) && Owned(Duping(m, |m.sabTab|), x) == Pins(m)[x] + Uses(m, x)
    ensures Owned(RecvUnlock(m), x) == Owned(RecvWake(m), x) == Owned(RecvRead(m), x) == Uses(m, x)
    ensures Owned(RecvFree(m, 0), x) == Uses(m, x) == Owned(DrainFree(m, 0), x)
    ensures Owned(RecvFree(m, |m.sabTab|), x) == 0 == Owned(DrainFree(m, |m.sabTab|), x)
  {
    hide Pins;
    SharesRest(m.sabTab, |m.sabTab|, x);
  }

  lemma OwnedNext(m: Message, i: nat, x: Sab)
    requires i < |m.sabTab|
    ensures var one := if m.sabTab[i] == x then 1 else 0;
      && Owned(Duping(m, i + 1), x) == Owned(Duping(m, i), x) + one
      && Owned(RecvFree(m, i), x) == Owned(RecvFree(m, i + 1), x) + one && Owned(DrainFree(m, i), x) == Owned(DrainFree(m, i + 1), x) + one
  {
    hide Pins;
  }

  lemma OwnedNone(x: Sab)
    ensures Owned(Idle, x) == 0 && Owned(RecvLock, x) == 0 && Owned(RecvTest, x) == 0 && Owned(RecvNone, x) == 0 && Owned(Draining, x) == 0
  {
  }

  lemma QueuedFirst(q: seq<Message>, x: Sab)
    requires q != []
    ensures Queued(q, x) == Uses(q[0], x) + Queued(q[1..], x)
  {
  }

  /** What thread and queue account for, against what has been counted. */
  predicate Balanced(l: Thread, s: Shared, l': Thread, s': Shared, x: Sab) {
    s'.refs[x] + s.held[x] + Owned(l, x) + Queued(s.queue, x) == s.refs[x] + s'.held[x] + Owned(l', x) + Queued(s'.queue, x)
  }

  lemma IdleCount(s: Shared, c: Choice, l': Thread, s': Shared, x: Sab)
    requires IdleAct(s, c) == Then(l', s') && s.held[x] <= s.refs[x]
    ensures Balanced(Idle, s, l', s', x)
  {
    hide Queued, Pins, Owned, Uses;
    OwnedNone(x);
    if c.StartPost? { OwnedOf(c.msg, x); }
  }

  lemma DupingCount(m: Message, i: nat, s: Shared, t: nat, l': Thread, s': Shared, x: Sab)
    requires i <= |m.sabTab| && PostAct(Duping(m, i), s, t) == Then(l', s')
    ensures Balanced(Duping(m, i), s, l', s', x)
  {
    hide Queued, Pins, Owned, Uses;
    OwnedOf(m, x);
    if i < |m.sabTab| { OwnedNext(m, i, x); }
  }

  lemma PostCount(l: Thread, s: Shared, t: nat, l': Thread, s': Shared, x: Sab)
    requires PostAct(l, s, t) == Then(l', s') && CountsOk(l)
    ensures Balanced(l, s, l', s', x)
  {
    hide Queued, Pins, Owned, Uses, Balanced;
    if l.Duping? {
      DupingCount(l.msg, l.i, s, t, l', s', x);
    } else {
      LockedPostCount(l, s, t, l', s', x);
    }
  }

  lemma LockedPostCount(l: Thread, s: Shared, t: nat, l': Thread, s': Shared, x: Sab)
    requires !l.Duping? && PostAct(l, s, t) == Then(l', s')
    ensures Balanced(l, s, l', s', x)
  {
    hide Queued, Pins, Owned, Uses;
    OwnedNone(x);
    OwnedOf(l.msg, x);
    QueuedMore(s.queue, l.msg, x);
  }

  lemma RecvCount(l: Thread, s: Shared, t: nat, c: Choice, l': Thread, s': Shared, x: Sab)
    requires RecvAct(l, s, t, c) == Then(l', s') && CountsOk(l) && Owned(l, x) <= s.refs[x]
    ensures Balanced(l, s, l', s', x)
  {
    hide Queued, Pins, Owned, Uses;
    OwnedNone(x);
    if l.RecvTest? {
      if s.queue != [] { OwnedOf(s.queue[0], x); QueuedFirst(s.queue, x); }
    } else if l.RecvFree? && l.i < |l.msg.sabTab| {
      OwnedNext(l.msg, l.i, x);
    } else if l.RecvWake? || l.RecvUnlock? || l.RecvRead? || l.RecvFree? {
      OwnedOf(l.msg, x);
    }
  }

  lemma DrainCount(l: Thread, s: Shared, l': Thread, s': Shared, x: Sab)
    requires DrainAct(l, s) == Then(l', s') && CountsOk(l) && Owned(l, x) <= s.refs[x]
    ensures Balanced(l, s, l', s', x)
  {
    hide Queued, Pins, Owned, Uses;
    OwnedNone(x);
    if l.Draining? {
      if s.queue != [] { OwnedOf(s.queue[0], x); QueuedFirst(s.queue, x); }
    } else if l.i < |l.msg.sabTab| {
      OwnedNext(l.msg, l.i, x);
    } else {
      OwnedOf(l.msg, x);
    }
  }

  lemma ActCount(l: Thread, s: Shared, t: nat, c: Choice, l': Thread, s': Shared, x: Sab)
    requires Acts(l, s, t, c, l', s') && CountsOk(l) && Owned(l, x) <= s.refs[x] && s.held[x] <= s.refs[x]
    ensures Balanced(l, s, l', s', x)
  {
    hide IdleAct, PostAct, RecvAct, DrainAct, Balanced;
    if l.Idle? { IdleCount(s, c, l', s', x); }
    else if Posting(l) { PostCount(l, s, t, l', s', x); }
    else if InDrain(l) { DrainCount(l, s, l', s', x); }
    else { RecvCount(l, s, t, c, l', s', x); }
  }

  // ----- every step of every thread keeps the invariant -----

  lemma NextActs(s: State, t: nat, c: Choice, s': State)
    requires Next(s, t, c, s')
    ensures |s'.threads| == |s.threads| && Acts(s.threads[t], s.shared, t, c, s'.threads[t], s'.shared)
    ensures s'.threads == s.threads[t := s'.threads[t]]
  {
    hide Act;
  }

  lemma KeepsMutex(s: State, t: nat, c: Choice, s': State)
    requires Next(s, t, c, s') && Mutex(s)
    ensures Mutex(s')
  {
    hide Acts, Next, Holding, CountsOk;
    assert t < |s.threads| by { NextThread(s, t, c, s'); }
    NextActs(s, t, c, s');
    ActMoves(s.threads[t], s.shared, t, c, s'.threads[t], s'.shared);
    assert CountsOk(s.threads[t]);
  }

  lemma NextThread(s: State, t: nat, c: Choice, s': State)
    requires Next(s, t, c, s')
    ensures t < |s.threads|
  {
    hide Act;
  }

  /** A thread in the pipe keeps it alive; while one drains it, there is no other. */
  lemma UserAlive(s: State, t: nat)
    requires t < |s.threads| && Lifetime(s)
    ensures LifetimeBefore(s.threads[t], s.shared)
  {
    TotalBound(Using, s.threads, t);
    TotalBound(Freeing, s.threads, t);
  }

  lemma KeepsLifetime(s: State, t: nat, c: Choice, s': State)
    requires Next(s, t, c, s') && Lifetime(s)
    ensures Lifetime(s')
  {
    hide Total, Acts, Next, LifetimeBefore, Using, Freeing;
    NextThread(s, t, c, s');
    NextActs(s, t, c, s');
    UserAlive(s, t);
    ActMoves(s.threads[t], s.shared, t, c, s'.threads[t], s'.shared);
    TotalUpdate(Using, s.threads, t, s'.threads[t]);
    TotalUpdate(Freeing, s.threads, t, s'.threads[t]);
  }

  lemma KeepsFifo(s: State, t: nat, c: Choice, s': State)
    requires Next(s, t, c, s') && Fifo(s.shared) && Lifetime(s)
    ensures Fifo(s'.shared)
  {
    hide Total, Acts, Next, Using, Freeing, Fifo;
    NextThread(s, t, c, s');
    NextActs(s, t, c, s');
    UserAlive(s, t);
    ActFifo(s.threads[t], s.shared, t, c, s'.threads[t], s'.shared);
  }

  lemma KeepsAwake(s: State, t: nat, c: Choice, s': State)
    requires Next(s, t, c, s') && Mutex(s) && Lifetime(s) && (s.shared.pipeRefs > 0 ==> Awake(s))
    ensures s'.shared.pipeRefs > 0 ==> Awake(s')
  {
    hide Total, Acts, Next, Using, Freeing;
    NextThread(s, t, c, s');
    NextActs(s, t, c, s');
    UserAlive(s, t);
    KeepsMutex(s, t, c, s');
    if s'.shared.pipeRefs > 0 {
      StillAlive(s.threads[t], s.shared, t, c, s'.threads[t], s'.shared);
      ActAwake(s.threads[t], s.shared, t, c, s'.threads[t], s'.shared);
      ActMoves(s.threads[t], s.shared, t, c, s'.threads[t], s'.shared);
    }
  }

  /** A pipe without references gets none. */
  lemma StillAlive(l: Thread, s: Shared, t: nat, c: Choice, l': Thread, s': Shared)
    requires Acts(l, s, t, c, l', s') && LifetimeBefore(l, s) && s'.pipeRefs > 0
    ensures s.pipeRefs > 0 && Freeing(l) == 0
  {
  }

  lemma KeepsCounted(s: State, t: nat, c: Choice, s': State)
    requires Next(s, t, c, s') && Mutex(s) && Counted(s)
    ensures Counted(s')
  {
    hide OwnedAll, Queued, Acts, Next, Holding, Owned;
    NextThread(s, t, c, s');
    NextActs(s, t, c, s');
    assert CountsOk(s.threads[t]);
    forall x: Sab ensures s'.shared.refs[x] == s'.shared.held[x] + OwnedAll(s'.threads, x) + Queued(s'.shared.queue, x) {
      OwnedUpdate(s.threads, t, s'.threads[t], x);
      OwnedBound(s.threads, t, x);
      ActCount(s.threads[t], s.shared, t, c, s'.threads[t], s'.shared, x);
    }
  }

  /** Every step of every thread keeps the invariant. */
  lemma NextKeepsInv(s: State, t: nat, c: Choice, s': State)
    requires Next(s, t, c, s') && Inv(s)
    ensures Inv(s')
  {
    hide Mutex, Awake, Fifo, Counted, Lifetime, Next;
    KeepsMutex(s, t, c, s');
    KeepsAwake(s, t, c, s');
    KeepsFifo(s, t, c, s');
    KeepsCounted(s, t, c, s');
    KeepsLifetime(s, t, c, s');
  }

  // ----- whole runs -----

  lemma {:induction false} TotalNone(f: Thread -> nat, ts: seq<Thread>)
    requires forall t :: 0 <= t < |ts| ==> f(ts[t]) == 0
    ensures Total(f, ts) == 0
  {
    if ts != [] { TotalNone(f, ts[..|ts| - 1]); }
  }

  lemma {:induction false} OwnedIdle(ts: seq<Thread>, x: Sab)
    requires forall t :: 0 <= t < |ts| ==> ts[t].Idle?
    ensures OwnedAll(ts, x) == 0
  {
    if ts != [] { OwnedIdle(ts[..|ts| - 1], x); }
  }

  lemma InitInv(n: nat)
    ensures Inv(Init(n))
  {
    var s := Init(n);
    TotalNone(Using, s.threads);
    TotalNone(Freeing, s.threads);
    forall x: Sab ensures OwnedAll(s.threads, x) == 0 { OwnedIdle(s.threads, x); }
  }

  ghost predicate Steps(s: State, s': State) { exists t: nat, c: Choice :: Next(s, t, c, s') }

  /** A run: any interleaving of any actions of any number of threads. */
  ghost predicate Run(states: seq<State>) {
    && states != [] && states[0] == Init(|states[0].threads|)
    && forall i :: 0 < i < |states| ==> Steps(states[i - 1], states[i])
  }

  lemma {:induction false} RunKeepsInv(states: seq<State>, i: nat)
    requires Run(states) && i < |states|
    ensures Inv(states[i])
  {
    hide Inv, Next, Init;
    if i == 0 {
      InitInv(|states[0].threads|);
    } else {
      RunKeepsInv(states, i - 1);
      var t: nat, c: Choice :| Next(states[i - 1], t, c, states[i]);
      NextKeepsInv(states[i - 1], t, c, states[i]);
    }
  }

  /** No wake-up is lost: whenever nobody is in the critical section of a live pipe, its wake-up pipe holds one
    * byte if the queue holds a message, and none otherwise. */
  lemma NoLostWakeUp(states: seq<State>, i: nat)
    requires Run(states) && i < |states| && states[i].shared.pipeRefs > 0 && states[i].shared.holder == -1
    ensures states[i].shared.bytes == if states[i].shared.queue == [] then 0 else 1
  {
    hide Run;
    RunKeepsInv(states, i);
  }

  /** The read of the wake-up byte never waits. */
  lemma ReadNeverBlocks(states: seq<State>, i: nat, t: nat, c: Choice)
    requires Run(states) && i < |states| && t < |states[i].threads| && states[i].threads[t].RecvWake?
    ensures states[i].shared.bytes == 1 && Act(states[i].threads[t], states[i].shared, t, c).Then?
  {
    hide Run, Total;
    RunKeepsInv(states, i);
    UserAlive(states[i], t);
  }

  /** Messages leave in posting order, each one once: what was taken and what still waits is what was posted. */
  lemma FirstInFirstOut(states: seq<State>, i: nat)
    requires Run(states) && i < |states|
    ensures var s := states[i].shared; s.pipeRefs > 0 ==> s.posted == s.taken + s.queue
    ensures var s := states[i].shared; s.taken <= s.posted && s.posted == s.taken + s.discarded + s.queue
  {
    hide Run;
    RunKeepsInv(states, i);
    var s := states[i].shared;
    assert s.discarded == [] ==> s.taken + s.discarded == s.taken;
  }

  lemma {:induction false} RestPositive(tab: seq<Sab>, i: nat, k: nat)
    requires i <= k < |tab|
    ensures Rest(tab, i, tab[k]) > 0
    decreases k - i
  {
    if i < k { RestPositive(tab, i + 1, k); }
  }

  lemma {:induction false} QueuedUses(q: seq<Message>, k: nat, x: Sab)
    requires k < |q|
    ensures Queued(q, x) >= Uses(q[k], x)
  {
    hide Uses;
    if k > 0 { QueuedUses(q[1..], k - 1, x); }
  }

  /** Buffers of queued messages, and those that a thread is about to share or to release, are alive. */
  lemma BuffersAlive(states: seq<State>, i: nat, x: Sab)
    requires Run(states) && i < |states|
    ensures (var s := states[i].shared; forall k: nat :: k < |s.queue| ==> s.refs[x] >= Uses(s.queue[k], x))
    ensures (var s := states[i]; forall t: nat :: t < |s.threads| ==> s.shared.refs[x] >= Owned(s.threads[t], x))
  {
    hide Run, Uses, Owned;
    RunKeepsInv(states, i);
    var s := states[i];
    forall k: nat | k < |s.shared.queue| ensures s.shared.refs[x] >= Uses(s.shared.queue[k], x) { QueuedUses(s.shared.queue, k, x); }
    forall t: nat | t < |s.threads| ensures s.shared.refs[x] >= Owned(s.threads[t], x) { OwnedBound(s.threads, t, x); }
  }

  /** The next buffer of a thread that shares or frees a table is counted. */
  lemma NextBufferAlive(states: seq<State>, i: nat, t: nat)
    requires Run(states) && i < |states| && t < |states[i].threads|
    ensures var l := states[i].threads[t]; (l.Duping? || l.RecvFree? || l.DrainFree?) && l.i < |l.msg.sabTab| ==> l.msg.sabTab[l.i] in states[i].shared.refs
  {
    hide Run, Inv;
    var l := states[i].threads[t];
    if (l.Duping? || l.RecvFree? || l.DrainFree?) && l.i < |l.msg.sabTab| {
      BuffersAlive(states, i, l.msg.sabTab[l.i]);
      RestPositive(l.msg.sabTab, l.i, l.i);
    }
  }

  /** When no call is under way, the counts are exactly the script objects and the queued messages; a freed pipe
    * leaves only the script objects. */
  lemma QuietCounts(states: seq<State>, i: nat, x: Sab)
    requires Run(states) && i < |states| && forall t :: 0 <= t < |states[i].threads| ==> states[i].threads[t].Idle?
    ensures var s := states[i].shared; s.refs[x] == s.held[x] + Queued(s.queue, x) && (s.freed ==> s.refs[x] == s.held[x])
  {
    hide Run, Total;
    RunKeepsInv(states, i);
    OwnedIdle(states[i].threads, x);
  }

  /** The pipe is freed once, by one thread, and only after every call on it has ended. */
  lemma FreedAlone(states: seq<State>, i: nat, t: nat, u: nat)
    requires Run(states) && i < |states| && t < |states[i].threads| && u < |states[i].threads| && t != u
    ensures states[i].shared.freed ==> Using(states[i].threads[t]) == 0 && Freeing(states[i].threads[t]) == 0
    ensures Freeing(states[i].threads[t]) == 1 ==> Using(states[i].threads[u]) == 0 && Freeing(states[i].threads[u]) == 0
  {
    hide Run, Using, Freeing;
    RunKeepsInv(states, i);
    var ts := states[i].threads;
    TotalBound(Using, ts, t);
    TotalBound(Using, ts, u);
    TotalOther(Freeing, ts, t, u);
  }

  // ----- progress -----

  lemma HolderGoes(l: Thread, s: Shared, t: nat)
    requires Holding(l) && (l.RecvWake? ==> s.bytes > 0)
    ensures Act(l, s, t, Go).Then?
  {
  }

  lemma OtherGoes(l: Thread, s: Shared, t: nat)
    requires !Holding(l) && !l.Idle? && s.holder == -1
    ensures exists c: Choice :: Act(l, s, t, c).Then?
  {
    if l.RecvRead? {
      assert multiset{} <= multiset(l.msg.sabTab);
      assert Act(l, s, t, Read(multiset{})).Then?;
    } else {
      assert Act(l, s, t, Go).Then?;
    }
  }

  /** No deadlock: while some call is under way, some call can go on. */
  lemma NeverStuck(states: seq<State>, i: nat, t: nat)
    requires Run(states) && i < |states| && t < |states[i].threads| && !states[i].threads[t].Idle?
    ensures exists u: nat, c: Choice, s': State :: Next(states[i], u, c, s') && !states[i].threads[u].Idle?
  {
    hide Run, Act, Counted, Fifo, Total;
    RunKeepsInv(states, i);
    var s := states[i];
    var u: nat := if s.shared.holder == -1 then t else s.shared.holder;
    var c: Choice;
    if s.shared.holder == -1 {
      OtherGoes(s.threads[u], s.shared, u);
      c :| Act(s.threads[u], s.shared, u, c).Then?;
    } else {
      UserAlive(s, u);
      HolderGoes(s.threads[u], s.shared, u);
      c := Go;
    }
    var o := Act(s.threads[u], s.shared, u, c);
    assert Next(s, u, c, State(s.threads[u := o.thread], o.shared));
  }

  /** What a call still has to do, queued messages included. */
  function Work(l: Thread): nat {
    match l
    case Idle => 0
    case Duping(m, i) => if i <= |m.sabTab| then 2 * |m.sabTab| - i + 16 else 0
    case PostLock(m) => |m.sabTab| + 15
    case PostTest(m) => |m.sabTab| + 14
    case PostAdd(m) => |m.sabTab| + 13
    case PostUnlock(m) => 1
    case RecvLock => 4
    case RecvTest => 3
    case RecvNone => 1
    case RecvWake(m) => |m.sabTab| + 5
    case RecvUnlock(m) => |m.sabTab| + 4
    case RecvRead(m) => |m.sabTab| + 3
    case RecvFree(m, i) => if i <= |m.sabTab| then |m.sabTab| - i + 1 else 0
    case Draining => 1
    case DrainFree(m, i) => if i <= |m.sabTab| then |m.sabTab| - i + 2 else 0
  }

  function QueueWork(q: seq<Message>): nat { if q == [] then 0 else |q[0].sabTab| + 10 + QueueWork(q[1..]) }

  lemma {:induction false} QueueWorkMore(q: seq<Message>, m: Message)
    ensures QueueWork(q + [m]) == QueueWork(q) + |m.sabTab| + 10
  {
    if q == [] {
      assert q + [m] == [m];
    } else {
      assert (q + [m])[1..] == q[1..] + [m];
      QueueWorkMore(q[1..], m);
    }
  }

  lemma PostWork(l: Thread, s: Shared, t: nat, l': Thread, s': Shared)
    requires PostAct(l, s, t) == Then(l', s') && CountsOk(l)
    ensures Work(l') + QueueWork(s'.queue) < Work(l) + QueueWork(s.queue)
  {
    hide QueueWork;
    if l.PostAdd? { QueueWorkMore(s.queue, l.msg); }
  }

  lemma OtherWork(l: Thread, s: Shared, t: nat, c: Choice, l': Thread, s': Shared)
    requires RecvAct(l, s, t, c) == Then(l', s') || DrainAct(l, s) == Then(l', s')
    requires CountsOk(l)
    ensures Work(l') + QueueWork(s'.queue) < Work(l) + QueueWork(s.queue)
  {
  }

  /** Every call ends: each action of a call that is under way leaves less to do, so that, unless new calls begin,
    * all threads become idle within as many steps. */
  lemma WorkDecreases(states: seq<State>, i: nat, t: nat, c: Choice)
    requires Run(states) && i + 1 < |states| && Next(states[i], t, c, states[i + 1]) && !states[i].threads[t].Idle?
    ensures Total(Work, states[i + 1].threads) + QueueWork(states[i + 1].shared.queue)
      < Total(Work, states[i].threads) + QueueWork(states[i].shared.queue)
  {
    hide Run, Total, Work, QueueWork, Next, IdleAct, PostAct, RecvAct, DrainAct, Counted, Fifo, Lifetime;
    RunKeepsInv(states, i);
    var s, s' := states[i], states[i + 1];
    NextThread(s, t, c, s');
    NextActs(s, t, c, s');
    assert CountsOk(s.threads[t]);
    TotalUpdate(Work, s.threads, t, s'.threads[t]);
    if Posting(s.threads[t]) {
      PostWork(s.threads[t], s.shared, t, s'.threads[t], s'.shared);
    } else {
      OtherWork(s.threads[t], s.shared, t, c, s'.threads[t], s'.shared);
    }
  }
}
