/** The Win32 condition variable of include/Xthreads.h (lines 114-122 and 141-172): every
    interleaving of the statements of xcondition_wait, xcondition_signal and xcondition_broadcast
    by any number of threads on one condition variable, refined to an atomic specification. */
module XCondition {
  import opened Names

  type Thread = nat

  // The statement a thread executes next. A thread's waiter node carries the thread's own name.
  datatype PC =
    | Idle
    | WaitEnter | WaitLink | WaitPush | WaitLeave | WaitUnlock | WaitBlocked | WaitRelock
    | SignalEnter | SignalRelease | SignalPop | SignalLeave
    | CastEnter | CastStart | CastTest(tmp: Option<Thread>) | CastNext(node: Thread) | CastClear | CastLeave

  // A CRITICAL_SECTION: who is inside, and how many times over.
  datatype Mutex = Free | Held(owner: Thread, extra: nat)

  ghost predicate Holds(m: Mutex, t: Thread) {
    m.Held? && m.owner == t
  }

  // EnterCriticalSection lets the owner in again.
  ghost predicate Enters(m: Mutex, t: Thread, n: Mutex) {
    (m.Free? && n == Held(t, 0)) || (Holds(m, t) && n == Held(t, m.extra + 1))
  }

  // LeaveCriticalSection
  ghost predicate Leaves(m: Mutex, t: Thread, n: Mutex) {
    Holds(m, t) && n == if m.extra == 0 then Free else Held(t, m.extra - 1)
  }

  datatype State = State(
    pc: map<Thread, PC>,
    next: map<Thread, Option<Thread>>,  // _tmpthr->next
    sem: map<Thread, nat>,              // the count of _tmpthr->sem
    waiters: Option<Thread>,
    cs: Option<Thread>,                 // who is inside cv->cs
    m: Mutex)                           // the caller's mutex

  ghost predicate Init(s: State) {
    && s.next.Keys == s.pc.Keys && s.sem.Keys == s.pc.Keys
    && (forall t :: t in s.pc ==> s.pc[t] == Idle && s.sem[t] == 0)
    && s.waiters == None && s.cs == None && s.m == Free
  }

  ghost function At(s: State, t: Thread, p: PC): State {
    s.(pc := s.pc[t := p])
  }

  // One atomic statement of thread t, in state s, leading to r.
  ghost predicate Step(s: State, t: Thread, r: State) {
    && t in s.pc && t in s.next && t in s.sem
    && match s.pc[t]
       case Idle =>
         || (Enters(s.m, t, r.m) && r == s.(m := r.m))
         || (Leaves(s.m, t, r.m) && r == s.(m := r.m))
         || (Holds(s.m, t) && r == At(s, t, WaitEnter))
         || r == At(s, t, SignalEnter)
         || r == At(s, t, CastEnter)
       case WaitEnter => s.cs == None && r == At(s.(cs := Some(t)), t, WaitLink)
       case WaitLink => r == At(s.(next := s.next[t := s.waiters]), t, WaitPush)
       case WaitPush => r == At(s.(waiters := Some(t)), t, WaitLeave)
       case WaitLeave => r == At(s.(cs := None), t, WaitUnlock)
       case WaitUnlock => Leaves(s.m, t, r.m) && r == At(s.(m := r.m), t, WaitBlocked)
       case WaitBlocked => s.sem[t] > 0 && r == At(s.(sem := s.sem[t := s.sem[t] - 1]), t, WaitRelock)
       case WaitRelock => Enters(s.m, t, r.m) && r == At(s.(m := r.m), t, Idle)
       case SignalEnter => s.cs == None && r == At(s.(cs := Some(t)), t, SignalRelease)
       case SignalRelease => ReleasesHead(s, t, r)
       case SignalPop =>
         s.waiters.Some? && s.waiters.value in s.next
         && r == At(s.(waiters := s.next[s.waiters.value]), t, SignalLeave)
       case SignalLeave => r == At(s.(cs := None), t, Idle)
       case CastEnter => s.cs == None && r == At(s.(cs := Some(t)), t, CastStart)
       case CastStart => r == At(s, t, CastTest(s.waiters))
       case CastTest(tmp) => ReleasesNode(s, t, r, tmp)
       case CastNext(node) => node in s.next && r == At(s, t, CastTest(s.next[node]))
       case CastClear => r == At(s.(waiters := None), t, CastLeave)
       case CastLeave => r == At(s.(cs := None), t, Idle)
  }

  // xcondition_signal releases the semaphore of the first waiter, if there is one.
  ghost predicate ReleasesHead(s: State, t: Thread, r: State) {
    if s.waiters == None then r == At(s, t, SignalLeave)
    else s.waiters.value in s.sem && r == At(Release(s, s.waiters.value), t, SignalPop)
  }

  // The loop of xcondition_broadcast releases the node it has come to, until there is none.
  ghost predicate ReleasesNode(s: State, t: Thread, r: State, tmp: Option<Thread>) {
    if tmp == None then r == At(s, t, CastClear)
    else tmp.value in s.sem && r == At(Release(s, tmp.value), t, CastNext(tmp.value))
  }

  ghost function Release(s: State, t: Thread): State
    requires t in s.sem
  {
    s.(sem := s.sem[t := s.sem[t] + 1])
  }

  // ---------------------------------------------------------------- the specification

  // Who waits, most recent first, and how many wake-ups each thread has coming.
  datatype Pool = Pool(queue: seq<Thread>, permits: map<Thread, nat>)

  // How far a thread has come with its operation.
  datatype Phase =
    | Outside
    | Waiting | Queued | Asleep | Woken
    | Signalling | Signalled
    | Broadcasting | HasBroadcast

  // An atomic monitor: its queue, the mutex, and where each thread stands.
  datatype Spec = Spec(pool: Pool, m: Mutex, at: map<Thread, Phase>)

  datatype Label =
    | Stutter
    | Lock(t: Thread) | Unlock(t: Thread)
    | CallWait(t: Thread) | Wait(t: Thread) | Yield(t: Thread) | Wake(t: Thread) | Resume(t: Thread)
    | CallSignal(t: Thread) | Signal(t: Thread)
    | CallBroadcast(t: Thread) | Broadcast(t: Thread)
    | Return(t: Thread)

  ghost predicate PoolStep(a: Pool, l: Label, b: Pool) {
    match l
    case Wait(t) => b == a.(queue := [t] + a.queue)
    case Signal(_) =>
      if a.queue == [] then b == a
      else
        && a.queue[0] in a.permits
        && b == Pool(a.queue[1..], a.permits[a.queue[0] := a.permits[a.queue[0]] + 1])
    case Broadcast(_) =>
      && b.queue == []
      && b.permits == Owed(a.permits, a.queue)
    case Wake(t) => t in a.permits && a.permits[t] > 0 && b == a.(permits := a.permits[t := a.permits[t] - 1])
    case _ => b == a
  }

  // The mutex belongs to who calls wait; it is left to sleep, and entered again to return.
  ghost predicate MutexStep(m: Mutex, l: Label, n: Mutex) {
    match l
    case Lock(t) => Enters(m, t, n)
    case Unlock(t) => Leaves(m, t, n)
    case CallWait(t) => Holds(m, t) && n == m
    case Yield(t) => Leaves(m, t, n)
    case Resume(t) => Enters(m, t, n)
    case _ => n == m
  }

  ghost predicate Goes(at: map<Thread, Phase>, t: Thread, from: Phase, to: Phase, next: map<Thread, Phase>) {
    t in at && at[t] == from && next == at[t := to]
  }

  // Every operation goes through all of its phases.
  ghost predicate PhaseStep(at: map<Thread, Phase>, l: Label, next: map<Thread, Phase>) {
    match l
    case Stutter => next == at
    case Lock(t) => Goes(at, t, Outside, Outside, next)
    case Unlock(t) => Goes(at, t, Outside, Outside, next)
    case CallWait(t) => Goes(at, t, Outside, Waiting, next)
    case Wait(t) => Goes(at, t, Waiting, Queued, next)
    case Yield(t) => Goes(at, t, Queued, Asleep, next)
    case Wake(t) => Goes(at, t, Asleep, Woken, next)
    case Resume(t) => Goes(at, t, Woken, Outside, next)
    case CallSignal(t) => Goes(at, t, Outside, Signalling, next)
    case Signal(t) => Goes(at, t, Signalling, Signalled, next)
    case CallBroadcast(t) => Goes(at, t, Outside, Broadcasting, next)
    case Broadcast(t) => Goes(at, t, Broadcasting, HasBroadcast, next)
    case Return(t) => Goes(at, t, Signalled, Outside, next) || Goes(at, t, HasBroadcast, Outside, next)
  }

  ghost predicate SpecStep(a: Spec, l: Label, b: Spec) {
    PoolStep(a.pool, l, b.pool) && MutexStep(a.m, l, b.m) && PhaseStep(a.at, l, b.at)
  }

  // What a statement amounts to: each operation takes effect at one of its statements.
  ghost function LabelOf(s: State, t: Thread, r: State): Label
    requires t in s.pc && t in r.pc
  {
    match s.pc[t]
    case Idle =>
      if r.pc[t].WaitEnter? then CallWait(t)
      else if r.pc[t].SignalEnter? then CallSignal(t)
      else if r.pc[t].CastEnter? then CallBroadcast(t)
      else if Enters(s.m, t, r.m) then Lock(t) else Unlock(t)
    case WaitPush => Wait(t)
    case WaitUnlock => Yield(t)
    case WaitBlocked => Wake(t)
    case WaitRelock => Resume(t)
    case SignalRelease => Signal(t)
    case SignalLeave => Return(t)
    case CastStart => Broadcast(t)
    case CastLeave => Return(t)
    case _ => Stutter
  }

  // ---------------------------------------------------------------- the invariant

  ghost predicate InCs(p: PC) {
    p.WaitLink? || p.WaitPush? || p.WaitLeave? || p.SignalRelease? || p.SignalPop? || p.SignalLeave?
    || p.CastStart? || p.CastTest? || p.CastNext? || p.CastClear? || p.CastLeave?
  }

  // Enqueued, and not yet through WaitForSingleObject.
  ghost predicate PastEnqueue(p: PC) {
    p.WaitLeave? || p.WaitUnlock? || p.WaitBlocked?
  }

  ghost predicate HoldsM(p: PC) {
    p.WaitEnter? || p.WaitLink? || p.WaitPush? || p.WaitLeave? || p.WaitUnlock?
  }

  ghost function NodeAt(l: seq<Thread>, i: nat): Option<Thread> {
    if i < |l| then Some(l[i]) else None
  }

  // The linked list headed by waiters runs through l and ends there.
  ghost predicate Chain(s: State, l: seq<Thread>) {
    ListFrom(s.next, s.waiters, l) && Distinct(l)
  }

  ghost predicate ListFrom(next: map<Thread, Option<Thread>>, head: Option<Thread>, l: seq<Thread>)
    decreases l
  {
    if l == [] then head == None
    else head == Some(l[0]) && l[0] in next && ListFrom(next, next[l[0]], l[1..])
  }

  // The i-th node of the list links to the one behind it.
  lemma {:induction false} ListAt(next: map<Thread, Option<Thread>>, head: Option<Thread>, l: seq<Thread>, i: nat)
    requires ListFrom(next, head, l) && i < |l|
    ensures l[i] in next && next[l[i]] == NodeAt(l, i + 1)
    decreases l
  {
    if i > 0 { ListAt(next, next[l[0]], l[1..], i - 1); }
  }

  // A change of links outside of the list does not matter.
  lemma {:induction false} ListFrame(next: map<Thread, Option<Thread>>, other: map<Thread, Option<Thread>>,
                                     head: Option<Thread>, l: seq<Thread>)
    requires ListFrom(next, head, l) && forall x :: x in l && x in next ==> x in other && other[x] == next[x]
    ensures ListFrom(other, head, l)
    decreases l
  {
    if l != [] {
      assert l[0] in l && forall x :: x in l[1..] ==> x in l;
      ListFrame(next, other, next[l[0]], l[1..]);
    }
  }

  // The first k nodes have been released by whoever is inside cs, but not yet unlinked.
  ghost predicate Progress(p: PC, l: seq<Thread>, k: nat) {
    && k <= |l|
    && match p
       case SignalPop => k == 1
       case CastTest(tmp) => tmp == NodeAt(l, k)
       case CastNext(node) => k > 0 && node == l[k - 1]
       case CastClear => k == |l|
       case _ => k == 0
  }

  ghost predicate Waits(s: State, l: seq<Thread>, k: nat, t: Thread)
    requires t in s.pc && t in s.sem && k <= |l|
  {
    if t in l[k..] then PastEnqueue(s.pc[t]) && s.sem[t] == 0
    else s.sem[t] == if PastEnqueue(s.pc[t]) then 1 else 0
  }

  // One record per thread; the thread inside cs, and the one that holds the mutex to wait.
  ghost predicate Locks(s: State) {
    && s.next.Keys == s.pc.Keys && s.sem.Keys == s.pc.Keys
    && (s.cs.Some? ==> s.cs.value in s.pc)
    && (forall t :: t in s.pc ==> (InCs(s.pc[t]) <==> s.cs == Some(t)))
    && (forall t :: t in s.pc && HoldsM(s.pc[t]) ==> Holds(s.m, t))
  }

  // The list, how far it has been released, and the link of a node about to be pushed.
  ghost predicate Linked(s: State, l: seq<Thread>, k: nat) {
    && Chain(s, l) && k <= |l|
    && (s.cs.None? ==> k == 0)
    && (s.cs.Some? && s.cs.value in s.pc && s.cs.value in s.next ==>
          && Progress(s.pc[s.cs.value], l, k)
          && (s.pc[s.cs.value].WaitPush? ==> s.next[s.cs.value] == s.waiters))
  }

  ghost predicate AllWait(s: State, l: seq<Thread>, k: nat) {
    k <= |l| && forall t :: t in s.pc && t in s.sem ==> Waits(s, l, k, t)
  }

  ghost predicate Inv(s: State, l: seq<Thread>, k: nat) {
    Locks(s) && Linked(s, l, k) && AllWait(s, l, k)
  }

  // A broadcast has taken effect but is still under way.
  ghost predicate Casting(s: State) {
    s.cs.Some? && s.cs.value in s.pc
    && (s.pc[s.cs.value].CastTest? || s.pc[s.cs.value].CastNext? || s.pc[s.cs.value].CastClear?)
  }

  ghost function PoolOf(s: State, l: seq<Thread>, k: nat): Pool
    requires k <= |l|
  {
    if Casting(s) then Pool([], Owed(s.sem, l[k..])) else Pool(l[k..], s.sem)
  }

  ghost function PhaseOf(p: PC): Phase {
    match p
    case Idle => Outside
    case WaitEnter => Waiting case WaitLink => Waiting case WaitPush => Waiting
    case WaitLeave => Queued case WaitUnlock => Queued
    case WaitBlocked => Asleep
    case WaitRelock => Woken
    case SignalEnter => Signalling case SignalRelease => Signalling
    case SignalPop => Signalled case SignalLeave => Signalled
    case CastEnter => Broadcasting case CastStart => Broadcasting
    case CastTest(_) => HasBroadcast case CastNext(_) => HasBroadcast
    case CastClear => HasBroadcast case CastLeave => HasBroadcast
  }

  ghost function Phases(s: State): map<Thread, Phase> {
    map t | t in s.pc :: PhaseOf(s.pc[t])
  }

  ghost function Abs(s: State, l: seq<Thread>, k: nat): Spec
    requires k <= |l|
  {
    Spec(PoolOf(s, l, k), s.m, Phases(s))
  }

  // The permits of a broadcast under way: those released, and those about to be.
  ghost function Owed(sem: map<Thread, nat>, rest: seq<Thread>): map<Thread, nat> {
    map t | t in sem :: sem[t] + if t in rest then 1 else 0
  }

  lemma {:induction false} OwedAfterRelease(sem: map<Thread, nat>, n: Thread, rest: seq<Thread>)
    requires n in sem && n !in rest
    ensures Owed(sem[n := sem[n] + 1], rest) == Owed(sem, [n] + rest)
  {
  }

  lemma {:induction false} OwedAfterWake(sem: map<Thread, nat>, t: Thread, rest: seq<Thread>)
    requires t in sem && sem[t] > 0 && t !in rest
    ensures Owed(sem[t := sem[t] - 1], rest) == Owed(sem, rest)[t := sem[t] - 1]
  {
  }

  // Where the list and the released prefix stand after a statement.
  ghost function NextList(s: State, t: Thread, l: seq<Thread>): seq<Thread>
    requires t in s.pc
  {
    match s.pc[t]
    case WaitPush => [t] + l
    case SignalPop => if l == [] then [] else l[1..]
    case CastClear => []
    case _ => l
  }

  ghost function NextReleased(s: State, t: Thread, l: seq<Thread>, k: nat): nat
    requires t in s.pc
  {
    match s.pc[t]
    case SignalRelease => if l == [] then 0 else 1
    case SignalPop => 0
    case CastTest(tmp) => if tmp == None then k else k + 1
    case CastClear => 0
    case _ => k
  }

  // ---------------------------------------------------------------- the locks

  ghost predicate Waiter(p: PC) {
    p.WaitEnter? || p.WaitLink? || p.WaitPush? || p.WaitLeave? || p.WaitUnlock? || p.WaitBlocked? || p.WaitRelock?
  }

  ghost predicate Signaller(p: PC) {
    p.SignalEnter? || p.SignalRelease? || p.SignalPop? || p.SignalLeave?
  }

  // Only the thread that moves changes its place; it takes a lock only when that is free, and
  // gives up only what is its own.
  ghost predicate Moves(s: State, t: Thread, r: State) {
    && t in s.pc && t in r.pc && r.pc == s.pc[t := r.pc[t]]
    && r.next.Keys == s.next.Keys && r.sem.Keys == s.sem.Keys
    && ((r.cs == s.cs && InCs(r.pc[t]) == InCs(s.pc[t]))
        || (s.cs == None && r.cs == Some(t) && (r.pc[t].WaitLink? || r.pc[t].SignalRelease? || r.pc[t].CastStart?))
        || (r.cs == None && InCs(s.pc[t]) && !InCs(r.pc[t])))
    && (!InCs(s.pc[t]) ==> r.next == s.next && r.waiters == s.waiters)
    && (r.m == s.m || Enters(s.m, t, r.m) || Leaves(s.m, t, r.m))
    && (HoldsM(r.pc[t]) ==> Holds(r.m, t))
  }

  // Taking or giving up the mutex outside of any operation.
  lemma {:induction false} MutexMoves(s: State, t: Thread, r: State)
    requires Locks(s) && t in s.pc && s.pc[t].Idle? && r == s.(m := r.m)
    requires Enters(s.m, t, r.m) || Leaves(s.m, t, r.m)
    ensures Moves(s, t, r)
  {
    assert s.pc[t := s.pc[t]] == s.pc;
  }

  // Beginning an operation.
  lemma {:induction false} CallMoves(s: State, t: Thread, r: State)
    requires Locks(s) && t in s.pc && s.pc[t].Idle? && t in r.pc && r == At(s, t, r.pc[t])
    requires r.pc[t].SignalEnter? || r.pc[t].CastEnter? || (r.pc[t].WaitEnter? && Holds(s.m, t))
    ensures Moves(s, t, r)
  {
  }

  lemma {:induction false} IdleMoves(s: State, t: Thread, r: State)
    requires Locks(s) && Step(s, t, r) && s.pc[t].Idle?
    ensures Moves(s, t, r)
  {
    if r.pc == s.pc { MutexMoves(s, t, r); } else { CallMoves(s, t, r); }
  }

  lemma {:induction false} EnqueuerMoves(s: State, t: Thread, r: State)
    requires Locks(s) && Step(s, t, r)
    requires s.pc[t].WaitEnter? || s.pc[t].WaitLink? || s.pc[t].WaitPush? || s.pc[t].WaitLeave?
    ensures Moves(s, t, r)
  {
  }

  lemma {:induction false} SleeperMoves(s: State, t: Thread, r: State)
    requires Locks(s) && Step(s, t, r)
    requires s.pc[t].WaitUnlock? || s.pc[t].WaitBlocked? || s.pc[t].WaitRelock?
    ensures Moves(s, t, r)
  {
  }

  lemma {:induction false} WaiterMoves(s: State, t: Thread, r: State)
    requires Locks(s) && Step(s, t, r) && Waiter(s.pc[t])
    ensures Moves(s, t, r)
  {
    if s.pc[t].WaitUnlock? || s.pc[t].WaitBlocked? || s.pc[t].WaitRelock? {
      SleeperMoves(s, t, r);
    } else {
      EnqueuerMoves(s, t, r);
    }
  }

  lemma {:induction false} SignallerMoves(s: State, t: Thread, r: State)
    requires Locks(s) && Step(s, t, r) && Signaller(s.pc[t])
    ensures Moves(s, t, r)
  {
  }

  lemma {:induction false} CasterMoves(s: State, t: Thread, r: State)
    requires Locks(s) && Step(s, t, r) && !Waiter(s.pc[t]) && !s.pc[t].Idle? && !Signaller(s.pc[t])
    ensures Moves(s, t, r)
  {
  }

  lemma {:induction false} LocksKept(s: State, t: Thread, r: State)
    requires Locks(s) && Moves(s, t, r)
    ensures Locks(r)
  {
    forall u | u in r.pc && u != t ensures r.pc[u] == s.pc[u] {}
  }

  // ---------------------------------------------------------------- the list

  // Outside cs nothing happens to the list.
  lemma {:induction false} LinkedOutside(s: State, t: Thread, r: State, l: seq<Thread>, k: nat)
    requires Locks(s) && Linked(s, l, k) && Moves(s, t, r) && !InCs(s.pc[t])
    ensures Linked(r, l, k)
  {
  }

  lemma {:induction false} LinkedByWaiter(s: State, t: Thread, r: State, l: seq<Thread>, k: nat)
    requires Locks(s) && Linked(s, l, k) && Step(s, t, r) && (t in l ==> s.pc[t].WaitLeave?)
    requires s.pc[t].WaitLink? || s.pc[t].WaitPush? || s.pc[t].WaitLeave?
    ensures Linked(r, NextList(s, t, l), NextReleased(s, t, l, k))
  {
    if s.pc[t].WaitLink? {
      ListFrame(s.next, r.next, s.waiters, l);
    } else if s.pc[t].WaitPush? {
      assert ([t] + l)[1..] == l;
    }
  }

  lemma {:induction false} LinkedBySignaller(s: State, t: Thread, r: State, l: seq<Thread>, k: nat)
    requires Locks(s) && Linked(s, l, k) && Step(s, t, r)
    requires s.pc[t].SignalRelease? || s.pc[t].SignalPop? || s.pc[t].SignalLeave?
    ensures Linked(r, NextList(s, t, l), NextReleased(s, t, l, k))
  {
    if s.pc[t].SignalPop? { assert s.waiters == Some(l[0]); }
  }

  // The links stay as they are; only how far the list has been released may change.
  lemma {:induction false} LinkedStill(s: State, t: Thread, r: State, l: seq<Thread>, k: nat)
    requires Chain(s, l) && r.waiters == s.waiters && r.next == s.next && k <= |l|
    requires if r.cs == None then k == 0 else r.cs == Some(t) && t in r.pc
    requires r.cs.Some? ==> Progress(r.pc[t], l, k) && !r.pc[t].WaitPush?
    ensures Linked(r, l, k)
  {
  }

  // A broadcast walks along the list.
  lemma {:induction false} WalkProgress(s: State, t: Thread, r: State, l: seq<Thread>, k: nat)
    requires t in s.pc && Chain(s, l) && Progress(s.pc[t], l, k) && Step(s, t, r)
    requires s.pc[t].CastStart? || s.pc[t].CastTest? || s.pc[t].CastNext?
    ensures t in r.pc && k <= NextReleased(s, t, l, k) <= |l|
    ensures Progress(r.pc[t], l, NextReleased(s, t, l, k)) && !r.pc[t].WaitPush?
  {
    if k > 0 { ListAt(s.next, s.waiters, l, k - 1); }
  }

  lemma {:induction false} LinkedByWalker(s: State, t: Thread, r: State, l: seq<Thread>, k: nat)
    requires Locks(s) && Linked(s, l, k) && Step(s, t, r)
    requires s.pc[t].CastStart? || s.pc[t].CastTest? || s.pc[t].CastNext?
    ensures Linked(r, l, NextReleased(s, t, l, k))
  {
    WalkProgress(s, t, r, l, k);
    LinkedStill(s, t, r, l, NextReleased(s, t, l, k));
  }

  lemma {:induction false} LinkedByCaster(s: State, t: Thread, r: State, l: seq<Thread>, k: nat)
    requires Locks(s) && Linked(s, l, k) && Step(s, t, r)
    requires s.pc[t].CastStart? || s.pc[t].CastTest? || s.pc[t].CastNext? || s.pc[t].CastClear? || s.pc[t].CastLeave?
    ensures Linked(r, NextList(s, t, l), NextReleased(s, t, l, k))
  {
    if !s.pc[t].CastClear? && !s.pc[t].CastLeave? { LinkedByWalker(s, t, r, l, k); }
  }

  lemma {:induction false} LinkedStep(s: State, t: Thread, r: State, l: seq<Thread>, k: nat)
    requires Inv(s, l, k) && Step(s, t, r) && Moves(s, t, r)
    ensures Linked(r, NextList(s, t, l), NextReleased(s, t, l, k))
  {
    if !InCs(s.pc[t]) {
      LinkedOutside(s, t, r, l, k);
    } else if Waiter(s.pc[t]) {
      assert k == 0 && l[k..] == l && Waits(s, l, k, t);
      LinkedByWaiter(s, t, r, l, k);
    } else if Signaller(s.pc[t]) {
      LinkedBySignaller(s, t, r, l, k);
    } else {
      LinkedByCaster(s, t, r, l, k);
    }
  }

  // ---------------------------------------------------------------- the semaphores

  // Statements that leave list, progress, semaphores and everyone's standing alone.
  ghost predicate Unnoticed(p: PC) {
    !p.WaitPush? && !p.WaitBlocked? && !p.SignalRelease? && !p.SignalPop? && !p.CastStart? && !p.CastTest?
    && !p.CastClear?
  }

  lemma {:induction false} UnnoticedEffect(s: State, t: Thread, r: State)
    requires Step(s, t, r) && Unnoticed(s.pc[t])
    ensures r.sem == s.sem && t in r.pc && PastEnqueue(r.pc[t]) == PastEnqueue(s.pc[t])
  {
  }

  lemma {:induction false} UnnoticedStep(s: State, t: Thread, r: State, l: seq<Thread>, k: nat)
    requires Locks(s) && AllWait(s, l, k) && Step(s, t, r) && Moves(s, t, r) && Unnoticed(s.pc[t])
    ensures AllWait(r, l, k) && r.sem == s.sem && Casting(r) == Casting(s)
  {
    UnnoticedEffect(s, t, r);
    WaitersKept(s, t, r, l, k);
    CastingKept(s, t, r);
  }

  lemma {:induction false} CastingKept(s: State, t: Thread, r: State)
    requires Locks(s) && Step(s, t, r) && Moves(s, t, r) && !s.pc[t].CastStart? && !s.pc[t].CastClear?
    ensures Casting(r) == Casting(s)
  {
  }

  lemma {:induction false} WaitersKept(s: State, t: Thread, r: State, l: seq<Thread>, k: nat)
    requires AllWait(s, l, k) && r.sem == s.sem && s.sem.Keys == s.pc.Keys
    requires t in s.pc && t in r.pc && r.pc == s.pc[t := r.pc[t]] && PastEnqueue(r.pc[t]) == PastEnqueue(s.pc[t])
    ensures AllWait(r, l, k)
  {
    forall u | u in r.pc ensures Waits(r, l, k, u) { assert Waits(s, l, k, u); }
  }

  lemma {:induction false} PushWaits(s: State, t: Thread, r: State, l: seq<Thread>, k: nat)
    requires Inv(s, l, k) && Step(s, t, r) && Moves(s, t, r) && s.pc[t].WaitPush?
    ensures AllWait(r, [t] + l, k) && PoolStep(PoolOf(s, l, k), Wait(t), PoolOf(r, [t] + l, k))
  {
    PushedWaits(s, t, r, l, k);
    PushIsNoCast(s, t, r);
    assert k == 0 && l[k..] == l && ([t] + l)[k..] == [t] + l;
  }

  lemma {:induction false} PushIsNoCast(s: State, t: Thread, r: State)
    requires Locks(s) && Step(s, t, r) && s.pc[t].WaitPush?
    ensures !Casting(s) && !Casting(r) && r.sem == s.sem
  {
  }

  lemma {:induction false} PushedWaits(s: State, t: Thread, r: State, l: seq<Thread>, k: nat)
    requires Inv(s, l, k) && Step(s, t, r) && Moves(s, t, r) && s.pc[t].WaitPush?
    ensures AllWait(r, [t] + l, k)
  {
    assert k == 0 && l[k..] == l && ([t] + l)[k..] == [t] + l;
    forall u | u in r.pc ensures Waits(r, [t] + l, k, u) { assert Waits(s, l, k, u); }
  }

  lemma {:induction false} WakeWaits(s: State, t: Thread, r: State, l: seq<Thread>, k: nat)
    requires Inv(s, l, k) && Step(s, t, r) && Moves(s, t, r) && s.pc[t].WaitBlocked?
    ensures AllWait(r, l, k) && t !in l[k..]
  {
    assert Waits(s, l, k, t) && t !in l[k..];
    forall u | u in r.pc ensures Waits(r, l, k, u) { assert Waits(s, l, k, u); }
  }

  lemma {:induction false} WakeIsWake(s: State, t: Thread, r: State, l: seq<Thread>, k: nat)
    requires k <= |l| && t in s.sem && s.sem[t] > 0 && t !in l[k..] && Casting(r) == Casting(s)
    requires r.sem == s.sem[t := s.sem[t] - 1]
    ensures PoolStep(PoolOf(s, l, k), Wake(t), PoolOf(r, l, k))
  {
    OwedAfterWake(s.sem, t, l[k..]);
  }

  // Signal and broadcast alike release the first node not yet released, whose count is zero.
  lemma {:induction false} ReleaseWaits(s: State, t: Thread, r: State, l: seq<Thread>, k: nat)
    requires AllWait(s, l, k) && Distinct(l) && s.sem.Keys == s.pc.Keys && k < |l| && l[k] in s.pc
    requires t in s.pc && t in r.pc && r.pc == s.pc[t := r.pc[t]] && PastEnqueue(r.pc[t]) == PastEnqueue(s.pc[t])
    requires r.sem == s.sem[l[k] := s.sem[l[k]] + 1]
    ensures AllWait(r, l, k + 1) && s.sem[l[k]] == 0
    ensures l[k..] == [l[k]] + l[k + 1..] && l[k] !in l[k + 1..]
  {
    TailFrom(l, k);
    assert Waits(s, l, k, l[k]);
    forall u | u in r.pc ensures Waits(r, l, k + 1, u) { assert Waits(s, l, k, u); }
  }

  lemma {:induction false} TailFrom(l: seq<Thread>, k: nat)
    requires k < |l| && Distinct(l)
    ensures l[k] in l[k..] && l[k..] == [l[k]] + l[k + 1..] && l[k] !in l[k + 1..]
  {
    assert l[k..][0] == l[k];
  }

  // Nothing has been released yet, and the first waiter is the head of the list.
  lemma {:induction false} SignalProgress(s: State, t: Thread, l: seq<Thread>, k: nat)
    requires Locks(s) && Linked(s, l, k) && t in s.pc && s.pc[t].SignalRelease?
    ensures k == 0 && s.waiters == NodeAt(l, 0) && (l != [] ==> l[0] in s.pc)
  {
  }

  lemma {:induction false} SignalIsNoCast(s: State, t: Thread, r: State)
    requires Locks(s) && t in s.pc && ReleasesHead(s, t, r) && s.pc[t].SignalRelease?
    ensures !Casting(s) && !Casting(r) && t in r.pc && !PastEnqueue(r.pc[t])
    ensures s.waiters == None ==> r.sem == s.sem
    ensures s.waiters.Some? ==>
      s.waiters.value in s.sem && r.sem == s.sem[s.waiters.value := s.sem[s.waiters.value] + 1]
  {
  }

  lemma {:induction false} SignalWaits(s: State, t: Thread, r: State, l: seq<Thread>, k: nat)
    requires Inv(s, l, k) && t in s.pc && ReleasesHead(s, t, r) && Moves(s, t, r) && s.pc[t].SignalRelease?
    ensures k == 0 && AllWait(r, l, if l == [] then 0 else 1)
  {
    SignalProgress(s, t, l, k);
    SignalIsNoCast(s, t, r);
    if l == [] {
      WaitersKept(s, t, r, l, k);
    } else {
      ReleaseWaits(s, t, r, l, k);
    }
  }

  lemma {:induction false} SignalIsSignal(s: State, t: Thread, r: State, l: seq<Thread>)
    requires s.waiters == NodeAt(l, 0) && !Casting(s) && !Casting(r)
    requires s.waiters == None ==> r.sem == s.sem
    requires s.waiters.Some? ==>
      s.waiters.value in s.sem && r.sem == s.sem[s.waiters.value := s.sem[s.waiters.value] + 1]
    ensures PoolStep(PoolOf(s, l, 0), Signal(t), PoolOf(r, l, if l == [] then 0 else 1))
  {
    assert l[0..] == l;
  }

  lemma {:induction false} PopWaits(s: State, t: Thread, r: State, l: seq<Thread>, k: nat)
    requires Inv(s, l, k) && Step(s, t, r) && Moves(s, t, r) && s.pc[t].SignalPop?
    ensures k == 1 && l != [] && AllWait(r, l[1..], 0) && PoolOf(r, l[1..], 0) == PoolOf(s, l, k)
  {
    assert l[1..][0..] == l[k..];
    WaitersKept(s, t, r, l, k);
    forall u | u in r.pc ensures Waits(r, l[1..], 0, u) { assert Waits(r, l, k, u); }
    CastingKept(s, t, r);
  }

  lemma {:induction false} CastStartWaits(s: State, t: Thread, r: State, l: seq<Thread>, k: nat)
    requires Inv(s, l, k) && Step(s, t, r) && Moves(s, t, r) && s.pc[t].CastStart?
    ensures AllWait(r, l, k) && PoolStep(PoolOf(s, l, k), Broadcast(t), PoolOf(r, l, k))
  {
    WaitersKept(s, t, r, l, k);
    assert Casting(r) && !Casting(s);
  }

  lemma {:induction false} CastProgress(s: State, t: Thread, l: seq<Thread>, k: nat)
    requires Locks(s) && Linked(s, l, k) && t in s.pc && s.pc[t].CastTest?
    ensures k <= |l| && s.pc[t].tmp == NodeAt(l, k) && (k < |l| ==> l[k] in s.pc)
  {
    if k < |l| { ListAt(s.next, s.waiters, l, k); }
  }

  lemma {:induction false} CastTestReleases(s: State, t: Thread, r: State, l: seq<Thread>, k: nat)
    requires Inv(s, l, k) && t in s.pc && s.pc[t].CastTest? && ReleasesNode(s, t, r, s.pc[t].tmp) && Moves(s, t, r)
    requires s.pc[t].tmp.Some?
    ensures k < |l| && AllWait(r, l, k + 1)
    ensures l[k] in s.sem && r.sem == s.sem[l[k] := s.sem[l[k]] + 1]
    ensures l[k..] == [l[k]] + l[k + 1..] && l[k] !in l[k + 1..]
  {
    CastProgress(s, t, l, k);
    ReleaseWaits(s, t, r, l, k);
  }

  lemma {:induction false} CastTestEnds(s: State, t: Thread, r: State, l: seq<Thread>, k: nat)
    requires Inv(s, l, k) && t in s.pc && s.pc[t].CastTest? && ReleasesNode(s, t, r, s.pc[t].tmp) && Moves(s, t, r)
    requires s.pc[t].tmp == None
    ensures AllWait(r, l, k) && r.sem == s.sem
  {
    WaitersKept(s, t, r, l, k);
  }

  lemma {:induction false} CastReleaseIsQuiet(s: State, r: State, l: seq<Thread>, k: nat)
    requires Casting(s) && Casting(r) && k < |l| && l[k] in s.sem && r.sem == s.sem[l[k] := s.sem[l[k]] + 1]
    requires l[k..] == [l[k]] + l[k + 1..] && l[k] !in l[k + 1..]
    ensures PoolOf(r, l, k + 1) == PoolOf(s, l, k)
  {
    OwedAfterRelease(s.sem, l[k], l[k + 1..]);
  }

  lemma {:induction false} CastClearWaits(s: State, t: Thread, r: State, l: seq<Thread>, k: nat)
    requires Inv(s, l, k) && Step(s, t, r) && Moves(s, t, r) && s.pc[t].CastClear?
    ensures AllWait(r, [], 0) && PoolOf(r, [], 0) == PoolOf(s, l, k)
  {
    var none: seq<Thread> := [];
    assert l[k..] == none && none[0..] == none;
    WaitersKept(s, t, r, l, k);
    forall u | u in r.pc ensures Waits(r, [], 0, u) { assert Waits(r, l, k, u); }
    assert !Casting(r) && Casting(s);
  }

  lemma {:induction false} StepMoves(s: State, t: Thread, r: State)
    requires Locks(s) && Step(s, t, r)
    ensures Moves(s, t, r) && Locks(r)
  {
    if s.pc[t].Idle? { IdleMoves(s, t, r); }
    else if Waiter(s.pc[t]) { WaiterMoves(s, t, r); }
    else if Signaller(s.pc[t]) { SignallerMoves(s, t, r); }
    else { CasterMoves(s, t, r); }
    LocksKept(s, t, r);
  }

  // The rest of the monitor: the mutex and the phases.
  lemma {:induction false} PhasesMove(s: State, t: Thread, r: State)
    requires t in s.pc && t in r.pc && r.pc == s.pc[t := r.pc[t]]
    ensures Phases(r) == Phases(s)[t := PhaseOf(r.pc[t])]
  {
  }

  ghost predicate RestSteps(s: State, t: Thread, r: State)
    requires t in s.pc && t in r.pc
  {
    MutexStep(s.m, LabelOf(s, t, r), r.m) && PhaseStep(Phases(s), LabelOf(s, t, r), Phases(r))
  }

  lemma {:induction false} IdleRest(s: State, t: Thread, r: State)
    requires Locks(s) && Step(s, t, r) && Moves(s, t, r) && s.pc[t].Idle?
    ensures RestSteps(s, t, r)
  {
    PhasesMove(s, t, r);
  }

  lemma {:induction false} WaiterRest(s: State, t: Thread, r: State)
    requires Locks(s) && Step(s, t, r) && Moves(s, t, r) && Waiter(s.pc[t])
    ensures RestSteps(s, t, r)
  {
    PhasesMove(s, t, r);
    assert Phases(s)[t := PhaseOf(s.pc[t])] == Phases(s);
  }

  lemma {:induction false} SignallerEffect(s: State, t: Thread, r: State)
    requires Step(s, t, r) && Signaller(s.pc[t])
    ensures t in r.pc && r.m == s.m
    ensures match s.pc[t]
      case SignalRelease => PhaseOf(s.pc[t]) == Signalling && PhaseOf(r.pc[t]) == Signalled
      case SignalLeave => PhaseOf(s.pc[t]) == Signalled && PhaseOf(r.pc[t]) == Outside
      case _ => PhaseOf(r.pc[t]) == PhaseOf(s.pc[t])
  {
  }

  lemma {:induction false} SignallerRest(s: State, t: Thread, r: State)
    requires Locks(s) && Step(s, t, r) && Moves(s, t, r) && Signaller(s.pc[t])
    ensures RestSteps(s, t, r)
  {
    SignallerEffect(s, t, r);
    PhasesMove(s, t, r);
    assert Phases(s)[t := PhaseOf(s.pc[t])] == Phases(s);
  }

  lemma {:induction false} CasterEffect(s: State, t: Thread, r: State)
    requires Step(s, t, r) && !Waiter(s.pc[t]) && !s.pc[t].Idle? && !Signaller(s.pc[t])
    ensures t in r.pc && r.m == s.m
    ensures match s.pc[t]
      case CastStart => PhaseOf(s.pc[t]) == Broadcasting && PhaseOf(r.pc[t]) == HasBroadcast
      case CastLeave => PhaseOf(s.pc[t]) == HasBroadcast && PhaseOf(r.pc[t]) == Outside
      case _ => PhaseOf(r.pc[t]) == PhaseOf(s.pc[t])
  {
  }

  lemma {:induction false} CasterRest(s: State, t: Thread, r: State)
    requires Locks(s) && Step(s, t, r) && Moves(s, t, r)
    requires !Waiter(s.pc[t]) && !s.pc[t].Idle? && !Signaller(s.pc[t])
    ensures RestSteps(s, t, r)
  {
    CasterEffect(s, t, r);
    PhasesMove(s, t, r);
    assert Phases(s)[t := PhaseOf(s.pc[t])] == Phases(s);
  }

  lemma {:induction false} StepRest(s: State, t: Thread, r: State)
    requires Locks(s) && Step(s, t, r)
    ensures t in r.pc && RestSteps(s, t, r)
  {
    StepMoves(s, t, r);
    if s.pc[t].Idle? { IdleRest(s, t, r); }
    else if Waiter(s.pc[t]) { WaiterRest(s, t, r); }
    else if Signaller(s.pc[t]) { SignallerRest(s, t, r); }
    else { CasterRest(s, t, r); }
  }

  // The invariant holds again after the statement, which amounts to one step of the queue.
  ghost predicate PoolRefines(s: State, t: Thread, r: State, l: seq<Thread>, k: nat)
    requires t in s.pc && t in r.pc && k <= |l|
  {
    exists l', k': nat :: Inv(r, l', k') && PoolStep(PoolOf(s, l, k), LabelOf(s, t, r), PoolOf(r, l', k'))
  }

  // And of the whole specification.
  ghost predicate Refines(s: State, t: Thread, r: State, l: seq<Thread>, k: nat)
    requires t in s.pc && t in r.pc && k <= |l|
  {
    exists l', k': nat :: Inv(r, l', k') && SpecStep(Abs(s, l, k), LabelOf(s, t, r), Abs(r, l', k'))
  }

  lemma {:induction false} QuietLabel(s: State, t: Thread, r: State, a: Pool)
    requires t in s.pc && t in r.pc && Unnoticed(s.pc[t])
    ensures PoolStep(a, LabelOf(s, t, r), a)
  {
  }

  lemma {:induction false} QuietPool(s: State, t: Thread, r: State, l: seq<Thread>, k: nat)
    requires t in s.pc && Unnoticed(s.pc[t]) && k <= |l| && r.sem == s.sem && Casting(r) == Casting(s)
    ensures NextList(s, t, l) == l && NextReleased(s, t, l, k) == k && PoolOf(r, l, k) == PoolOf(s, l, k)
  {
  }

  lemma {:induction false} QuietRefines(s: State, t: Thread, r: State, l: seq<Thread>, k: nat)
    requires Inv(s, l, k) && Step(s, t, r) && Unnoticed(s.pc[t])
    ensures t in r.pc && PoolRefines(s, t, r, l, k)
  {
    StepMoves(s, t, r);
    LinkedStep(s, t, r, l, k);
    UnnoticedStep(s, t, r, l, k);
    QuietPool(s, t, r, l, k);
    QuietLabel(s, t, r, PoolOf(s, l, k));
    assert Inv(r, l, k);
  }

  lemma {:induction false} PushRefines(s: State, t: Thread, r: State, l: seq<Thread>, k: nat)
    requires Inv(s, l, k) && Step(s, t, r) && s.pc[t].WaitPush?
    ensures t in r.pc && PoolRefines(s, t, r, l, k)
  {
    StepMoves(s, t, r);
    LinkedStep(s, t, r, l, k);
    PushWaits(s, t, r, l, k);
  }

  lemma {:induction false} WakeRefines(s: State, t: Thread, r: State, l: seq<Thread>, k: nat)
    requires Inv(s, l, k) && Step(s, t, r) && s.pc[t].WaitBlocked?
    ensures t in r.pc && PoolRefines(s, t, r, l, k)
  {
    StepMoves(s, t, r);
    assert Inv(r, l, k) by {
      LinkedStep(s, t, r, l, k);
      WakeWaits(s, t, r, l, k);
    }
    assert PoolStep(PoolOf(s, l, k), Wake(t), PoolOf(r, l, k)) by {
      CastingKept(s, t, r);
      WakeIsWake(s, t, r, l, k);
    }
  }

  lemma {:induction false} SignalRefines(s: State, t: Thread, r: State, l: seq<Thread>, k: nat)
    requires Inv(s, l, k) && Step(s, t, r) && s.pc[t].SignalRelease?
    ensures t in r.pc && PoolRefines(s, t, r, l, k)
  {
    StepMoves(s, t, r);
    LinkedStep(s, t, r, l, k);
    SignalWaits(s, t, r, l, k);
    SignalIsNoCast(s, t, r);
    SignalIsSignal(s, t, r, l);
  }

  lemma {:induction false} PopRefines(s: State, t: Thread, r: State, l: seq<Thread>, k: nat)
    requires Inv(s, l, k) && Step(s, t, r) && s.pc[t].SignalPop?
    ensures t in r.pc && PoolRefines(s, t, r, l, k)
  {
    StepMoves(s, t, r);
    LinkedStep(s, t, r, l, k);
    PopWaits(s, t, r, l, k);
  }

  lemma {:induction false} CastStartRefines(s: State, t: Thread, r: State, l: seq<Thread>, k: nat)
    requires Inv(s, l, k) && Step(s, t, r) && s.pc[t].CastStart?
    ensures t in r.pc && PoolRefines(s, t, r, l, k)
  {
    StepMoves(s, t, r);
    LinkedStep(s, t, r, l, k);
    CastStartWaits(s, t, r, l, k);
  }

  lemma {:induction false} CastTestRefines(s: State, t: Thread, r: State, l: seq<Thread>, k: nat)
    requires Inv(s, l, k) && Step(s, t, r) && s.pc[t].CastTest?
    ensures t in r.pc && PoolRefines(s, t, r, l, k)
  {
    StepMoves(s, t, r);
    LinkedStep(s, t, r, l, k);
    CastingKept(s, t, r);
    assert Casting(s);
    if s.pc[t].tmp == None {
      CastTestEnds(s, t, r, l, k);
      assert Inv(r, l, k) && PoolOf(r, l, k) == PoolOf(s, l, k);
    } else {
      CastTestReleases(s, t, r, l, k);
      CastReleaseIsQuiet(s, r, l, k);
      assert Inv(r, l, k + 1);
    }
  }

  lemma {:induction false} CastClearRefines(s: State, t: Thread, r: State, l: seq<Thread>, k: nat)
    requires Inv(s, l, k) && Step(s, t, r) && s.pc[t].CastClear?
    ensures t in r.pc && PoolRefines(s, t, r, l, k)
  {
    StepMoves(s, t, r);
    LinkedStep(s, t, r, l, k);
    CastClearWaits(s, t, r, l, k);
  }

  lemma {:induction false} StepRefinesPool(s: State, t: Thread, r: State, l: seq<Thread>, k: nat)
    requires Inv(s, l, k) && Step(s, t, r)
    ensures t in r.pc && PoolRefines(s, t, r, l, k)
  {
    match s.pc[t] {
      case WaitPush => PushRefines(s, t, r, l, k);
      case WaitBlocked => WakeRefines(s, t, r, l, k);
      case SignalRelease => SignalRefines(s, t, r, l, k);
      case SignalPop => PopRefines(s, t, r, l, k);
      case CastStart => CastStartRefines(s, t, r, l, k);
      case CastTest(_) => CastTestRefines(s, t, r, l, k);
      case CastClear => CastClearRefines(s, t, r, l, k);
      case _ => QuietRefines(s, t, r, l, k);
    }
  }

  /** Every statement keeps the invariant, and is either invisible or one atomic step of the
      specification: a wait takes effect when its node is pushed, a signal when it releases, a
      broadcast when it starts to walk the list; a wait leaves the mutex to sleep and enters it again
      to return, and no operation returns without having taken effect. */
  lemma {:induction false} StepRefines(s: State, t: Thread, r: State, l: seq<Thread>, k: nat)
    requires Inv(s, l, k) && Step(s, t, r)
    ensures t in r.pc && Refines(s, t, r, l, k)
  {
    StepRefinesPool(s, t, r, l, k);
    StepRest(s, t, r);
    var l', k': nat :| Inv(r, l', k') && PoolStep(PoolOf(s, l, k), LabelOf(s, t, r), PoolOf(r, l', k'));
    assert SpecStep(Abs(s, l, k), LabelOf(s, t, r), Abs(r, l', k'));
  }

  // ---------------------------------------------------------------- whole executions

  ghost predicate SomeStep(s: State, r: State) {
    exists t :: Step(s, t, r)
  }

  // Any interleaving: at each point some thread executes its next statement.
  ghost predicate Execution(run: seq<State>) {
    run != [] && Init(run[0]) && forall i :: 0 <= i < |run| - 1 ==> SomeStep(run[i], run[i + 1])
  }

  lemma {:induction false} InitialInvariant(s: State)
    requires Init(s)
    ensures Inv(s, [], 0) && PoolOf(s, [], 0) == Pool([], s.sem)
  {
    var none: seq<Thread> := [];
    assert none[0..] == none;
    forall t | t in s.pc ensures Waits(s, [], 0, t) {}
  }

  // A state seen through the list that its links spell out.
  ghost predicate Shows(s: State, a: Spec) {
    exists l, k: nat :: Inv(s, l, k) && a == Abs(s, l, k)
  }

  // The same statement, concretely and as the atomic operation it amounts to.
  ghost predicate Simulated(s: State, r: State, a: Spec, b: Spec) {
    exists t :: Step(s, t, r) && t in r.pc && SpecStep(a, LabelOf(s, t, r), b)
  }

  lemma {:induction false} OneMore(s: State, r: State, a: Spec) returns (b: Spec)
    requires Shows(s, a) && SomeStep(s, r)
    ensures Shows(r, b) && Simulated(s, r, a, b)
  {
    var t :| Step(s, t, r);
    var l, k: nat :| Inv(s, l, k) && a == Abs(s, l, k);
    StepRefines(s, t, r, l, k);
    var l', k': nat :| Inv(r, l', k') && SpecStep(Abs(s, l, k), LabelOf(s, t, r), Abs(r, l', k'));
    b := Abs(r, l', k');
  }

  // Step by step, a run is followed by one that it shows.
  lemma {:induction false} Follow<S(!new), A(!new)>(step: (S, S) -> bool, shows: (S, A) -> bool,
                                                    simulated: (S, S, A, A) -> bool, run: seq<S>, first: A)
    returns (specs: seq<A>)
    requires run != [] && shows(run[0], first)
    requires forall i :: 0 <= i < |run| - 1 ==> step(run[i], run[i + 1])
    requires forall s, r, a :: shows(s, a) && step(s, r) ==> exists b :: shows(r, b) && simulated(s, r, a, b)
    ensures |specs| == |run| && specs[0] == first
    ensures forall i :: 0 <= i < |run| ==> shows(run[i], specs[i])
    ensures forall i :: 0 <= i < |run| - 1 ==> simulated(run[i], run[i + 1], specs[i], specs[i + 1])
  {
    specs := [first];
    while |specs| < |run|
      invariant 1 <= |specs| <= |run| && specs[0] == first
      invariant forall i :: 0 <= i < |specs| ==> shows(run[i], specs[i])
      invariant forall i :: 0 <= i < |specs| - 1 ==> simulated(run[i], run[i + 1], specs[i], specs[i + 1])
    {
      var n := |specs| - 1;
      assert shows(run[n], specs[n]) && step(run[n], run[n + 1]);
      var b :| shows(run[n + 1], b) && simulated(run[n], run[n + 1], specs[n], b);
      var more := specs + [b];
      assert more[n + 1] == b && forall i :: 0 <= i < |specs| ==> more[i] == specs[i];
      specs := more;
    }
  }

  /** Every execution refines one of the specification: there is a sequence of abstract states,
      starting from nobody waiting, that the concrete ones show, and each statement is the
      atomic operation its label names, or nothing. */
  lemma {:induction false} ExecutionRefines(run: seq<State>) returns (specs: seq<Spec>)
    requires Execution(run)
    ensures |specs| == |run| && specs[0] == Spec(Pool([], run[0].sem), Free, map t | t in run[0].pc :: Outside)
    ensures forall i :: 0 <= i < |run| ==> Shows(run[i], specs[i])
    ensures forall i :: 0 <= i < |run| - 1 ==> Simulated(run[i], run[i + 1], specs[i], specs[i + 1])
  {
    InitialInvariant(run[0]);
    forall s, r, a | Shows(s, a) && SomeStep(s, r) ensures exists b :: Shows(r, b) && Simulated(s, r, a, b) {
      var b := OneMore(s, r, a);
    }
    var first := Spec(Pool([], run[0].sem), Free, map t | t in run[0].pc :: Outside);
    assert Abs(run[0], [], 0) == first;
    specs := Follow(SomeStep, Shows, Simulated, run, first);
  }

  // A thread past its enqueue is queued with no release pending or off the queue with one; any
  // other thread is neither queued nor released.
  ghost predicate Accounted(p: PC, t: Thread, a: Spec) {
    && t in a.pool.permits
    && (PastEnqueue(p) <==> t in a.pool.queue || a.pool.permits[t] == 1)
    && (t in a.pool.queue ==> a.pool.permits[t] == 0)
    && a.pool.permits[t] <= 1
    && forall m, n :: 0 <= m < n < |a.pool.queue| ==> a.pool.queue[m] != a.pool.queue[n]
  }

  /** In every state of every execution no wake-up has been lost and none is spurious, and the
      list holds no thread twice. */
  lemma {:induction false} NoWakeupLostOrSpurious(run: seq<State>, i: nat, t: Thread)
    requires Execution(run) && i < |run| && t in run[i].pc
    ensures exists a :: Shows(run[i], a) && Accounted(run[i].pc[t], t, a)
  {
    var specs := ExecutionRefines(run);
    assert Shows(run[i], specs[i]);
    var l, k: nat :| Inv(run[i], l, k) && specs[i] == Abs(run[i], l, k);
    AccountedFor(run[i], t, l, k);
  }

  lemma {:induction false} AccountedFor(s: State, t: Thread, l: seq<Thread>, k: nat)
    requires Inv(s, l, k) && t in s.pc
    ensures Accounted(s.pc[t], t, Abs(s, l, k))
  {
    assert Waits(s, l, k, t);
  }

  // ---------------------------------------------------------------- the mutex over a wait

  // Of the mutex as it was when t called wait, so much is left to t while it waits: all of it until it goes
  // to sleep, then one entry less.
  ghost predicate Keeps(p: PC, m: Mutex, t: Thread, atCall: Mutex) {
    Holds(atCall, t) &&
    if p.WaitBlocked? || p.WaitRelock? then
      if atCall.extra == 0 then !Holds(m, t) else m == Held(t, atCall.extra - 1)
    else m == atCall
  }

  lemma {:induction false} StepKeeps(s: State, u: Thread, r: State, t: Thread, atCall: Mutex)
    requires Locks(s) && Step(s, u, r) && t in s.pc && Waiter(s.pc[t]) && Keeps(s.pc[t], s.m, t, atCall)
    ensures t in r.pc
    ensures if u == t && s.pc[t].WaitRelock? then r.pc[t].Idle? && r.m == atCall
            else Waiter(r.pc[t]) && Keeps(r.pc[t], r.m, t, atCall)
  {
    StepMoves(s, u, r);
  }

  lemma {:induction false} ReachableLocks(run: seq<State>, i: nat)
    requires Execution(run) && i < |run|
    ensures Locks(run[i])
  {
    var specs := ExecutionRefines(run);
    assert Shows(run[i], specs[i]);
    var l, k: nat :| Inv(run[i], l, k) && specs[i] == Abs(run[i], l, k);
  }

  // From the call on, as long as t is in the wait.
  lemma {:induction false} KeepsOneMore(run: seq<State>, j: nat, t: Thread, atCall: Mutex)
    requires Execution(run) && 0 < j < |run| && t in run[j - 1].pc && Waiter(run[j - 1].pc[t])
    requires Keeps(run[j - 1].pc[t], run[j - 1].m, t, atCall)
    ensures t in run[j].pc
    ensures if run[j].pc[t].Idle? then run[j].m == atCall
            else Waiter(run[j].pc[t]) && Keeps(run[j].pc[t], run[j].m, t, atCall)
  {
    ReachableLocks(run, j - 1);
    assert SomeStep(run[j - 1], run[j - 1 + 1]);
    var u :| Step(run[j - 1], u, run[j]);
    StepKeeps(run[j - 1], u, run[j], t, atCall);
  }

  lemma {:induction false} KeepsThroughout(run: seq<State>, i: nat, j: nat, t: Thread)
    requires Execution(run) && i <= j < |run| && t in run[i].pc && run[i].pc[t].WaitEnter?
    requires forall k :: i <= k <= j ==> t in run[k].pc && Waiter(run[k].pc[t])
    ensures Keeps(run[j].pc[t], run[j].m, t, run[i].m)
    decreases j - i
  {
    if i < j {
      KeepsThroughout(run, i, j - 1, t);
      KeepsOneMore(run, j, t, run[i].m);
    } else {
      KeepsAtCall(run, i, t);
    }
  }

  lemma {:induction false} KeepsAtCall(run: seq<State>, i: nat, t: Thread)
    requires Execution(run) && i < |run| && t in run[i].pc && run[i].pc[t].WaitEnter?
    ensures Keeps(run[i].pc[t], run[i].m, t, run[i].m)
  {
    ReachableLocks(run, i);
  }

  /** A wait called with the mutex returns with the mutex, entered just as many times as at the call; while it
      sleeps it has left it once, so that others can enter exactly if the caller was inside only once. */
  lemma {:induction false} WaitGivesTheMutexBack(run: seq<State>, i: nat, j: nat, t: Thread)
    requires Execution(run) && i < j < |run| && t in run[i].pc && run[i].pc[t].WaitEnter?
    requires forall k :: i <= k < j ==> t in run[k].pc && Waiter(run[k].pc[t])
    ensures Holds(run[i].m, t)
    ensures t in run[j].pc && run[j].pc[t].Idle? ==> run[j].m == run[i].m
    ensures forall k :: i <= k < j && run[k].pc[t].WaitBlocked? ==>
      (Holds(run[k].m, t) <==> run[i].m.extra > 0)
  {
    KeepsThroughout(run, i, j - 1, t);
    KeepsOneMore(run, j, t, run[i].m);
    forall k | i <= k < j && run[k].pc[t].WaitBlocked? ensures Holds(run[k].m, t) <==> run[i].m.extra > 0 {
      KeepsThroughout(run, i, k, t);
    }
  }

  // ---------------------------------------------------------------- who can go on

  // What the next statement of a thread has to wait for, if anything.
  ghost predicate HeldUp(s: State, t: Thread)
    requires t in s.pc && t in s.sem
  {
    match s.pc[t]
    case WaitEnter => s.cs.Some?
    case SignalEnter => s.cs.Some?
    case CastEnter => s.cs.Some?
    case WaitBlocked => s.sem[t] == 0
    case WaitRelock => s.m.Held? && s.m.owner != t
    case _ => false
  }

  /** In every state of every execution a thread can take its next statement exactly when it need not wait for cs,
      for its semaphore or for the mutex. */
  lemma {:induction false} CanStepExactlyWhen(run: seq<State>, i: nat, t: Thread)
    requires Execution(run) && i < |run| && t in run[i].pc
    ensures t in run[i].sem && ((exists r :: Step(run[i], t, r)) <==> !HeldUp(run[i], t))
  {
    ReachableLocks(run, i);
    var s := run[i];
    if s.cs == Some(t) {
      CsHolderCanStep(run, i, t);
    } else {
      OutsiderCanStep(s, t);
    }
  }

  lemma {:induction false} OutsiderCanStep(s: State, t: Thread)
    requires Locks(s) && t in s.pc && s.cs != Some(t)
    ensures (exists r :: Step(s, t, r)) <==> !HeldUp(s, t)
  {
    if !HeldUp(s, t) {
      var entered := if s.m.Free? then Held(t, 0) else Held(t, s.m.extra + 1);
      match s.pc[t] {
        case Idle => assert Step(s, t, At(s, t, SignalEnter));
        case WaitEnter => assert Step(s, t, At(s.(cs := Some(t)), t, WaitLink));
        case SignalEnter => assert Step(s, t, At(s.(cs := Some(t)), t, SignalRelease));
        case CastEnter => assert Step(s, t, At(s.(cs := Some(t)), t, CastStart));
        case WaitUnlock =>
          var left := if s.m.extra == 0 then Free else Held(t, s.m.extra - 1);
          assert Step(s, t, At(s.(m := left), t, WaitBlocked));
        case WaitBlocked => assert Step(s, t, At(s.(sem := s.sem[t := s.sem[t] - 1]), t, WaitRelock));
        case WaitRelock => assert Step(s, t, At(s.(m := entered), t, Idle));
      }
    }
  }

  /** Whoever is inside cs can always take its next statement, so cs is never held up. */
  lemma {:induction false} CsHolderCanStep(run: seq<State>, i: nat, t: Thread)
    requires Execution(run) && i < |run| && run[i].cs == Some(t)
    ensures exists r :: Step(run[i], t, r)
  {
    var specs := ExecutionRefines(run);
    assert Shows(run[i], specs[i]);
    var l, k: nat :| Inv(run[i], l, k) && specs[i] == Abs(run[i], l, k);
    HolderCanStep(run[i], t, l, k);
  }

  lemma {:induction false} HolderCanStep(s: State, t: Thread, l: seq<Thread>, k: nat)
    requires Inv(s, l, k) && s.cs == Some(t)
    ensures exists r :: Step(s, t, r)
  {
    if k < |l| { ListAt(s.next, s.waiters, l, k); }
    if k > 0 { ListAt(s.next, s.waiters, l, k - 1); }
    match s.pc[t] {
      case WaitLink => assert Step(s, t, At(s.(next := s.next[t := s.waiters]), t, WaitPush));
      case WaitPush => assert Step(s, t, At(s.(waiters := Some(t)), t, WaitLeave));
      case WaitLeave => assert Step(s, t, At(s.(cs := None), t, WaitUnlock));
      case SignalRelease =>
        if s.waiters == None { assert Step(s, t, At(s, t, SignalLeave)); }
        else { assert Step(s, t, At(Release(s, s.waiters.value), t, SignalPop)); }
      case SignalPop => assert Step(s, t, At(s.(waiters := s.next[s.waiters.value]), t, SignalLeave));
      case SignalLeave => assert Step(s, t, At(s.(cs := None), t, Idle));
      case CastStart => assert Step(s, t, At(s, t, CastTest(s.waiters)));
      case CastTest(tmp) =>
        if tmp == None { assert Step(s, t, At(s, t, CastClear)); }
        else { assert Step(s, t, At(Release(s, tmp.value), t, CastNext(tmp.value))); }
      case CastNext(node) => assert Step(s, t, At(s, t, CastTest(s.next[node])));
      case CastClear => assert Step(s, t, At(s.(waiters := None), t, CastLeave));
      case CastLeave => assert Step(s, t, At(s.(cs := None), t, Idle));
    }
  }
}
